# HyperCore core, modelled in Dafny

HyperCore is a C library of containers, sorts, string helpers, an
allocation tracker and a command-line option parser. This project models
its core in Dafny and proves properties of the model. Each C file has its
own module:

- `RbNode`/`RbTree` (rb_tree.c) and `AvlNode`/`AvlTree` (avl_tree.c): the ordered trees.
- `Ordered`: the sorted entry sequences that both trees represent.
- `Chains`, `HashTable` (hash_table.c) and `HashMap` (map.c): the chained hash tables.
- `LinkedList` (list.c), `Vectors` (vector.c) and `SkipLists` (skip_list.c).
- `SortSpec`, `BubbleSort`, `InsertionSort`, `MergeSort`, `QuickSort` and `RadixSort` (the sort/ directory).
- `Compare` (compare.c).
- `StrQuery`, `StrEdit`, `StrBuild`, `StrSplit` and `StrNumber` (strings.c).
- `Garbage` (garbage.c) and `ArgsParser` (argsparser.c).
- `Common`: bytes, NUL-terminated buffers, `Option` and the comparator laws.

How C maps to Dafny:

- A structure whose fields the C updates in place is a class. This covers
  the tree, table, map, list, vector, skip-list, tracker and parser
  objects. Its methods carry `modifies` clauses and state the new fields.
- Node graphs are values inside those classes:
  - tree nodes are algebraic datatypes;
  - red-black parent pointers are a zipper path;
  - list, skip-list and tracker chains are sequences in link order.
- The sorts and the in-place string functions work on arrays.
- Byte strings are `seq<byte>` holding a NUL-terminated buffer.
- Whether malloc, calloc, realloc or strdup succeeds is a parameter of the
  operation that calls it. So are the values of rand() and time().
- C undefined behaviour is an explicit outcome:
  - a `defined` flag;
  - an `Undefined` result;
  - or a precondition listed below.
- A memcpy that would read or write past a buffer is such an outcome:
  the tree inserts and rb_tree_remove return `defined == false` for it.

Each operation is proved against a specification: a sorted and permuted
array, the map a tree or table represents, the tokens of a split, the
round trip of a number through its decimal text, the counters of the
tracker, the options a parse selects.

## Model

| member | source | states |
|---|---|---|
| SortSpec.StablePermutation | src/sort/insertion_sort.c:35-50 | an output that keeps every tie class of the input in order is a permutation of the input, so a stable sort loses and invents no element |
| SortSpec.StableTrans | src/sort/bubble_sort.c:35-53 | stability composes: two stable rearrangements in a row are a stable rearrangement, which is how the passes of a sort add up |
| SortSpec.SwapStable | src/sort/bubble_sort.c:40-47 | exchanging two neighbours whose comparison is strictly positive keeps every tie class in order |
| SortSpec.MoveBeforeStable | src/sort/insertion_sort.c:42-49 | moving a key in front of a run of strictly greater elements keeps every tie class in order |
| SortSpec.CountInTies | src/sort/insertion_sort.c:35-50 | every copy of y lies in the tie class of y, which is why stability implies permutation |
| SortSpec.SortedJoin | src/sort/bubble_sort.c:35-53 | two sorted pieces, the first entirely at most the second, join into a sorted sequence |
| InsertionSort.InsertionSort | src/sort/insertion_sort.c:24-53 | nothing changes for fewer than 2 elements or when the key buffer cannot be allocated; otherwise the array ends sorted; always a stable permutation of the input |
| InsertionSort.Insert | src/sort/insertion_sort.c:38-49 | one round of the outer loop moves a[i] down to h, shifting the strictly greater run a[h..i] up by one; a[h-1] is at most the key |
| InsertionSort.Placed | src/sort/insertion_sort.c:38-49 | inserting the key after the last element not above it extends the sorted prefix by one and is stable |
| InsertionSort.PlacedSorted | src/sort/insertion_sort.c:42-49 | a key placed between elements at most it and elements at least it keeps a sorted sequence sorted |
| BubbleSort.BubbleSort | src/sort/bubble_sort.c:24-56 | nothing changes for fewer than 2 elements or when the swap buffer cannot be allocated; otherwise the array ends sorted, also when a pass without swaps stops the loop early; always a stable permutation |
| BubbleSort.Pass | src/sort/bubble_sort.c:37-48 | one pass over a[..m] carries a maximum of that prefix to m-1, leaves a[m..] alone and is stable; a pass without swaps means a[..m] was already sorted |
| BubbleSort.SwapStep | src/sort/bubble_sort.c:40-47 | swapping an out-of-order pair carries the running maximum one step right |
| BubbleSort.KeepStep | src/sort/bubble_sort.c:40 | an in-order pair passes the running maximum on and extends a sorted prefix |
| BubbleSort.PassDone | src/sort/bubble_sort.c:35-53 | after a pass the sorted suffix grows by one element, all of it at least everything before it |
| BubbleSort.SortedAt | src/sort/bubble_sort.c:50-52 | a sorted prefix below a sorted suffix makes the whole array sorted, which justifies the early exit |
| MergeSort.Merge | src/sort/merge_sort.c:45-78 | the merge of L and R has exactly |L| + |R| elements |
| MergeSort.MergePermutation | src/sort/merge_sort.c:45-78 | the merge is a permutation of the two runs together |
| MergeSort.MergeSorted | src/sort/merge_sort.c:49-62 | merging two sorted runs gives a sorted run |
| MergeSort.MergeTies | src/sort/merge_sort.c:51 | merging sorted runs keeps, for every tie class, the left run's members before the right run's, because `<= 0` takes from L on a tie |
| MergeSort.MergeStable | src/sort/merge_sort.c:49-78 | merging sorted runs is a stable rearrangement of their concatenation |
| MergeSort.MergeLowerBound | src/sort/merge_sort.c:49-78 | a lower bound of both runs is a lower bound of their merge |
| MergeSort.MergeRange | src/sort/merge_sort.c:17-83 | when L and R can be allocated, a[left..right] becomes the merge of the two halves; when either allocation fails, the range is left as it was; nothing outside the range changes |
| MergeSort.MergeLoops | src/sort/merge_sort.c:45-78 | the three copying loops write exactly the merge of L and R into a[left..right] |
| MergeSort.MergeHeads | src/sort/merge_sort.c:49-62 | the first loop stops with one run used up, having written the first i + j elements of the merge; the rest of the merge is the merge of what is left |
| MergeSort.CopyTails | src/sort/merge_sort.c:64-78 | the two tail loops finish writing the merge |
| MergeSort.CopyRun | src/sort/merge_sort.c:65-78 | a tail loop copies the rest of one run to a[k..] and touches nothing else |
| MergeSort.MergeSortRecursive | src/sort/merge_sort.c:85-99 | the range ends a permutation of itself; when every merge of the recursion can allocate, it ends sorted and stably so; nothing outside the range changes |
| MergeSort.CombinedSorted | src/sort/merge_sort.c:93-97 | merging two halves that were each sorted stably sorts the whole range stably |
| MergeSort.MergeSort | src/sort/merge_sort.c:109-116 | fewer than 2 elements: unchanged; always a permutation; sorted and stable when every merge can allocate |
| QuickSort.Swap | src/sort/quick_sort.c:17-29 | exchanges the two elements when the temporary buffer is allocated and changes nothing when it is not |
| QuickSort.Partition | src/sort/quick_sort.c:31-49 | returns p in [low, high]; the range is a permutation of itself and nothing outside it changes; when every swap succeeds, a[p] is the old last element and everything before p in the range is at most it and everything after it is strictly greater |
| QuickSort.PartitionLoop | src/sort/quick_sort.c:36-46 | the loop keeps a[low..i] at most the pivot and a[i+1..j] strictly above it, as a permutation of the range |
| QuickSort.PivotPlaced | src/sort/quick_sort.c:47-48 | the final swap puts the pivot at i + 1 between the two parts |
| QuickSort.LowStep | src/sort/quick_sort.c:41-45 | an element at most the pivot swapped to i + 1 extends the low part |
| QuickSort.PivotStep | src/sort/quick_sort.c:47 | swapping the pivot into the first slot of the high part places it between the parts |
| QuickSort.QuickSortRecursive | src/sort/quick_sort.c:51-66 | the range ends a permutation of itself and nothing outside it changes; when every swap of the recursion succeeds, it ends sorted |
| QuickSort.QuickDone | src/sort/quick_sort.c:59-64 | a partitioned range whose two sides were sorted by the recursive calls is sorted, and the pieces together are a permutation |
| QuickSort.SortedAround | src/sort/quick_sort.c:59-64 | sorted low part, pivot, sorted high part, with the bounds the partition guarantees, make a sorted sequence |
| QuickSort.QuickSort | src/sort/quick_sort.c:76-83 | fewer than 2 elements: unchanged; always a permutation; sorted when every swap can allocate |
| RadixSort.Quot | src/sort/radix_sort.c:91 | C's `max / exp` for a positive exp truncates toward zero and is positive exactly when max >= exp, which is the loop test of radix_sort_int |
| RadixSort.Digit | src/sort/radix_sort.c:49 | `(x / exp) % 10` with C's truncating operators: a digit between -9 and 9, negative only for a negative x |
| RadixSort.BucketAppend | src/sort/radix_sort.c:56-61 | the elements with digit d of a concatenation are those of each part in turn |
| RadixSort.BucketsLength | src/sort/radix_sort.c:51-53 | the buckets d..9 together are as long as the prefix sums say |
| RadixSort.StartAll | src/sort/radix_sort.c:51-53 | when every digit is in 0..9 the last prefix sum is the number of elements |
| RadixSort.BucketsLayout | src/sort/radix_sort.c:51-59 | bucket after bucket, every output position p holds an element whose digit d has count[d-1] <= p < count[d] |
| RadixSort.BucketsPermutation | src/sort/radix_sort.c:42-66 | the bucket order is a permutation of the input when every digit is in 0..9 |
| RadixSort.BucketSorted | src/sort/radix_sort.c:56-61 | a bucket keeps the input order of its elements, which is what the backwards placement loop achieves |
| RadixSort.BucketsLex | src/sort/radix_sort.c:42-66 | in the bucket order, elements are ordered by digit, and within one digit by their order in the input |
| RadixSort.RadixPass | src/sort/radix_sort.c:91-92 | for non-negative elements ordered by their value modulo exp, one counting sort by the digit of weight exp orders them by their value modulo 10 * exp |
| RadixSort.DigitThenResidue | src/sort/radix_sort.c:91-92 | ordering by digit first and then by the lower residue orders by the next residue |
| RadixSort.ResidueIsValue | src/sort/radix_sort.c:91 | once the weight exceeds every element, ordering by residue is ordering by value |
| RadixSort.PlaceSlot | src/sort/radix_sort.c:58-59 | placing a[i] at count[d] - 1, with count[d] just past its bucket's share of the elements up to i, puts it where the bucket order has it |
| RadixSort.WithinBounds | src/sort/radix_sort.c:83-92 | bounds that hold for every element of the input hold for every element of a permutation of it |
| RadixSort.GetMax | src/sort/radix_sort.c:24-31 | returns an element of the array that no element exceeds |
| RadixSort.CountDigits | src/sort/radix_sort.c:44-49 | defined exactly when every digit of weight exp is in 0..9; then count[d] is the number of elements with digit d |
| RadixSort.PrefixSums | src/sort/radix_sort.c:51-53 | afterwards count[d] is the number of elements with digit at most d |
| RadixSort.PlaceStep | src/sort/radix_sort.c:56-61 | one round of the backwards loop writes a[i-1] into its slot and keeps the counts pointing just past the unfilled slots |
| RadixSort.PlaceDone | src/sort/radix_sort.c:56-61 | after the backwards loop the output is exactly the bucket order |
| RadixSort.Place | src/sort/radix_sort.c:56-61 | the backwards loop fills output with the bucket order of a |
| RadixSort.CountingSort | src/sort/radix_sort.c:42-66 | defined exactly when every digit of weight exp is in 0..9 (a negative digit would index count out of bounds); then a becomes its bucket order, otherwise it is left alone |
| RadixSort.SortedModOne | src/sort/radix_sort.c:91 | before the first pass, every order is an order by residue modulo 1 |
| RadixSort.SortedWhenBounded | src/sort/radix_sort.c:91-92 | a permutation ordered by residue modulo a bound above every element is sorted |
| RadixSort.RadixStep | src/sort/radix_sort.c:91-92 | one pass of the digit loop keeps the elements a permutation of the input and, for non-negative input, extends the order by residue from exp to 10 * exp |
| RadixSort.RadixSortInt | src/sort/radix_sort.c:77-95 | always a permutation; unchanged and defined for fewer than 2 elements, when output cannot be allocated, or when no element is positive (the maximum has no digit); non-negative input ends sorted, and the run is defined exactly when every element is below 10^9 (past that, `exp *= 10` overflows); a positive maximum together with an element whose last digit is negative makes it undefined |
| RadixSort.RadixSort | src/sort/radix_sort.c:108-122 | does nothing unless elem_size is sizeof(int); otherwise the promises of radix_sort_int |
| Compare.PromotedDifference | src/algorithms/compare.c:18-28 | compare_char, compare_uchar and compare_short: the difference of two promoted values fits in an int and its sign orders them (negative, zero, positive exactly for below, equal, above) |
| Compare.ThreeWay | src/algorithms/compare.c:30-56 | compare_ushort, compare_uint, compare_long, compare_ulong: the result is -1, 0 or 1 and orders the operands |
| Compare.CompareInt | src/algorithms/compare.c:36-38 | compare_int as written (two's-complement subtraction): zero exactly for equal operands; the sign orders the operands whenever a - b fits in an int |
| Compare.CompareIntOverflow | src/algorithms/compare.c:36-38 | compare_int as written misorders INT_MAX against -1 and INT_MIN against 1 |
| Compare.CompareIntOrdered | src/algorithms/compare.c:36-38 | the intended comparison: -1, 0 or 1, ordering every pair of ints |
| Compare.Lowered | src/algorithms/compare.c:88-89 | lower-casing keeps the length and maps tolower over every byte |
| Compare.CaseDiffZero | src/algorithms/compare.c:83-95 | the difference compare_str_case returns is zero exactly when the two strings are equal ignoring ASCII case |
| Compare.CaseDiffNZero | src/algorithms/compare.c:97-110 | the result of compare_strn_case is zero exactly when the first n characters of the two strings are equal ignoring ASCII case |
| Compare.CompareStrCase | src/algorithms/compare.c:83-95 | the loop returns the first difference of the lower-cased characters (or of the lower-cased terminators), zero exactly for strings equal ignoring case |
| Compare.CompareStrnCase | src/algorithms/compare.c:97-110 | the same, over at most n characters, with 0 when n runs out first |
| Compare.CompareArray | src/algorithms/compare.c:123-132 | zero exactly when cmp reports every one of the first length pairs equal; otherwise the result is cmp's verdict on the first pair it does not report equal |
| StrQuery.Text | src/strings/strings.c:18-23 | the text of a C string is its bytes up to the first NUL: it holds no NUL and is str_len long |
| StrQuery.StrLen | src/strings/strings.c:18-23 | str_len: 0 for NULL; otherwise the index of the first NUL byte, i.e. the length of the text |
| StrQuery.StrNLen | src/strings/strings.c:25-30 | str_nlen: 0 for NULL; otherwise the smaller of the text length and maxlen |
| StrQuery.StrEmpty | src/strings/strings.c:32-34 | str_empty: true exactly for NULL or a string whose first byte is NUL |
| StrQuery.DiffZero | src/strings/strings.c:56-64 | the byte difference str_cmp returns is zero exactly for equal texts |
| StrQuery.DiffAntisymmetric | src/strings/strings.c:56-64 | swapping the operands of str_cmp negates its result |
| StrQuery.DiffExtension | src/strings/strings.c:56-64 | a proper prefix compares below the longer string |
| StrQuery.DiffNZero | src/strings/strings.c:66-74 | the result of str_ncmp is zero exactly when the first n bytes agree |
| StrQuery.StrCmp | src/strings/strings.c:56-64 | str_cmp: NULL sorts before any string and equals only NULL; two strings give the difference of the first unequal bytes, zero exactly for equal texts |
| StrQuery.StrNCmp | src/strings/strings.c:66-74 | str_ncmp: 0 when either side is NULL or n is 0; otherwise the difference over the first n bytes, zero exactly when those prefixes agree |
| StrQuery.LowerZero | src/strings/strings.c:76-89 | tolower maps only NUL to NUL, so the case-insensitive loop stops at the same place as the plain one |
| StrQuery.StrCaseCmp | src/strings/strings.c:76-89 | str_case_cmp: NULL handling as str_cmp; otherwise the difference of the first unequal lower-cased bytes, zero exactly for texts equal ignoring ASCII case |
| StrQuery.StrEquals | src/strings/strings.c:91-93 | str_equals: true exactly when both are NULL or both texts are equal |
| StrQuery.StrStartsWith | src/strings/strings.c:95-99 | true exactly when neither is NULL and the prefix's text is a prefix of the string's text |
| StrQuery.StrEndsWith | src/strings/strings.c:101-109 | true exactly when neither is NULL and the suffix's text is the tail of the string's text |
| StrQuery.StrChr | src/strings/strings.c:180-186 | str_chr: the first position holding (char)c, the terminator included (so c == 0 finds the end); None only when no such position exists |
| StrQuery.StrRChr | src/strings/strings.c:188-198 | str_rchr: the last position before the terminator holding (char)c; None when none does (c == 0 included) |
| StrQuery.MatchAt | src/strings/strings.c:200-213 | comparing the needle against the haystack from position i succeeds exactly when the needle occurs there |
| StrQuery.StrStr | src/strings/strings.c:200-213 | str_str: None for NULL arguments; otherwise the first position where the needle occurs, None only when it occurs nowhere |
| StrQuery.StrRStr | src/strings/strings.c:216-226 | str_rstr: the whole haystack for a NULL or empty needle; otherwise the last occurrence, None only when there is none |
| StrQuery.SearchFrom | src/strings/strings.c:216-226 | one forward search from pos: the first occurrence at or after pos, or proof that there is none |
| StrQuery.StrPbrk | src/strings/strings.c:228-241 | str_pbrk: the first position whose byte is one of the accepted characters; None exactly when no byte of the text is |
| StrQuery.StrSpan | src/strings/strings.c:243-259 | str_span: the length of the longest prefix made only of accepted characters |
| StrQuery.StrCSpan | src/strings/strings.c:261-273 | str_cspan: the length of the longest prefix containing no rejected character |
| StrQuery.StrIsAlpha | src/strings/strings.c:451-460 | false for NULL; otherwise true exactly when every byte of the text is an ASCII letter (true for the empty string) |
| StrQuery.StrIsDigit | src/strings/strings.c:462-471 | the same for decimal digits |
| StrQuery.StrIsAlnum | src/strings/strings.c:474-485 | the same for letters and digits |
| StrQuery.StrIsSpace | src/strings/strings.c:487-497 | the same for the C white-space characters (space, tab, newline, vertical tab, form feed, carriage return) |
| StrQuery.StrIsUpper | src/strings/strings.c:499-508 | the same for upper-case letters |
| StrQuery.StrIsLower | src/strings/strings.c:510-519 | the same for lower-case letters |
| StrQuery.StrCountChar | src/strings/strings.c:593-604 | str_count_char: 0 for NULL; otherwise the number of occurrences of c in the text (so 0 for c == NUL) |
| StrQuery.StrArrayLen | src/strings/strings.c:530-537 | str_array_len: 0 for NULL; otherwise the index of the first NULL entry |
| StrEdit.StrClear | src/strings/strings.c:46-49 | str_clear writes NUL at the first byte and nothing else, leaving the empty string |
| StrEdit.CopyAt | src/strings/strings.c:112-119 | the copy loop writes the source text and its terminator at the given offset and leaves every other byte alone |
| StrEdit.StrCopy | src/strings/strings.c:112-119 | str_copy: a NULL source leaves the destination unchanged; otherwise the destination's text becomes the source's text and bytes past the copied terminator are unchanged |
| StrEdit.StrNCopy | src/strings/strings.c:121-132 | str_ncopy: a NULL source leaves the destination unchanged; otherwise exactly the first n bytes are written, source bytes up to its end then NUL padding; when n does not exceed the source length no terminator is written, otherwise the text is the source's |
| StrEdit.StrCat | src/strings/strings.c:134-143 | str_cat: a NULL source leaves the destination unchanged; otherwise the destination's text becomes the old text followed by the source's text and bytes past the new terminator are unchanged |
| StrEdit.NCopyAt | src/strings/strings.c:146-156 | the bounded copy loop of str_ncat writes at most n source bytes and a terminator at the offset, nothing else |
| StrEdit.AppendedChars | src/strings/strings.c:146-156 | the appended buffer is terminated and its text is the old text followed by the first n bytes of the source text |
| StrEdit.StrNCat | src/strings/strings.c:146-156 | str_ncat: a NULL source leaves the destination unchanged; otherwise the text becomes the old text followed by at most n bytes of the source, always terminated |
| StrEdit.StrLCpy | src/strings/strings.c:158-166 | str_lcpy returns the source length (0 for NULL); size 0 writes nothing; otherwise the destination holds the first size-1 bytes of the source text, terminated, and a NULL source leaves only a NUL written at byte 0 |
| StrEdit.LCatFacts | src/strings/strings.c:168-177 | appending size-len-1 bytes leaves a terminated text no longer than size-1 that extends the old text by a prefix of the source |
| StrEdit.StrLCat | src/strings/strings.c:168-177 | str_lcat returns the sum of both lengths (a NULL source counting 0); it writes nothing for a NULL source or when size leaves no room after the existing text, and otherwise appends as far as size-1 bytes allow |
| StrEdit.Uppered | src/strings/strings.c:276-286 | upper-casing keeps the length and maps toupper over every byte |
| StrEdit.UpperIdempotent | src/strings/strings.c:276-286 | upper-casing twice equals upper-casing once |
| StrEdit.LowerIdempotent | src/strings/strings.c:288-298 | lower-casing twice equals lower-casing once |
| StrEdit.CaseMapsKeepNul | src/strings/strings.c:276-298 | the case maps never create a NUL, and they change only lower-case (respectively upper-case) ASCII letters |
| StrEdit.StrUpper | src/strings/strings.c:276-286 | str_upper: the text becomes its upper-cased form; the terminator and everything after it are unchanged |
| StrEdit.StrLowerAt | src/strings/strings.c:288-298 | the lower-casing loop started at an offset lower-cases the text from there on and keeps the part before it |
| StrEdit.StrLower | src/strings/strings.c:288-298 | str_lower: the text becomes its lower-cased form; the rest of the buffer is unchanged |
| StrEdit.StrCapitalize | src/strings/strings.c:301-306 | str_capitalize: the empty string stays; otherwise the first byte is upper-cased and the rest lower-cased |
| StrEdit.Reversed | src/strings/strings.c:308-318 | reversal keeps the length and reads the text back to front |
| StrEdit.ReverseTwice | src/strings/strings.c:308-318 | reversing twice gives the original text |
| StrEdit.StrReverse | src/strings/strings.c:308-318 | str_reverse: the text becomes its reversal and the rest of the buffer is unchanged |
| StrEdit.Lead | src/strings/strings.c:332-338 | the left-trim length: every byte before it is a space, tab or newline and the byte at it is not |
| StrEdit.Keep | src/strings/strings.c:340-348 | the intended right-trim length: every byte from it on is blank and the byte before it is not |
| StrEdit.KeepUnique | src/strings/strings.c:340-348 | those two properties fix the right-trim length uniquely |
| StrEdit.LeadUnique | src/strings/strings.c:332-338 | the left-trim length is fixed uniquely by its two properties |
| StrEdit.TrimmedEnds | src/strings/strings.c:320-330 | a non-empty trimmed text neither starts nor ends with a blank |
| StrEdit.TrimmedSplit | src/strings/strings.c:320-330 | the text is its leading blanks, its trimmed text and its trailing blanks, in that order |
| StrEdit.TrimmedEmpty | src/strings/strings.c:320-330 | trimming gives the empty text exactly when every byte is blank |
| StrEdit.KeptAsWritten | src/strings/strings.c:340-348 | the length str_trim_right keeps as written: never more than the text |
| StrEdit.TrimRightKeepsBlank | src/strings/strings.c:343-346 | on an all-blank text the loop stops at the first byte and keeps one blank, where the intended right trim keeps none |
| StrEdit.TrimRightLoop | src/strings/strings.c:343-345 | the backward scan of the source computes the as-written kept length |
| StrEdit.StrTrimRightAsWritten | src/strings/strings.c:340-348 | str_trim_right as written: NUL is stored after the kept length and the text becomes that prefix |
| StrEdit.StrTrimRight | src/strings/strings.c:340-348 | the intended right trim: the text becomes its prefix without trailing blanks, which then does not end in a blank |
| StrEdit.StrTrimLeft | src/strings/strings.c:332-338 | str_trim_left returns the offset of the first non-blank byte |
| StrEdit.StrTrim | src/strings/strings.c:320-330 | str_trim: the buffer is cut as str_trim_right does and the returned offset points at the fully trimmed text (the one blank left on an all-blank string is skipped by the left trim) |
| StrBuild.StrNew | src/strings/strings.c:36-44 | str_new (and str_clone, which calls it): NULL for NULL or a failed allocation; otherwise a fresh terminated copy with the same text |
| StrBuild.CopyPrefix | src/strings/strings.c:606-624 | the bounded copy of str_substr yields the first m bytes of the text followed by NUL |
| StrBuild.StrSubstr | src/strings/strings.c:606-624 | str_substr: NULL for NULL, a start at or past the end, or a failed allocation; otherwise the len bytes from start, clipped at the end of the text, terminated |
| StrBuild.PrefixOccurs | src/strings/strings.c:655 | comparing old_len bytes at position i succeeds exactly when old occurs at i |
| StrBuild.MatchesSkip | src/strings/strings.c:638-642 | the count from a position adds one for the next occurrence and continues after the skipped match |
| StrBuild.MatchesNone | src/strings/strings.c:638-642 | with no occurrence left the count is zero |
| StrBuild.CountMatches | src/strings/strings.c:636-642 | the counting loop counts the non-overlapping occurrences of old, scanning left to right |
| StrBuild.ReplacedLength | src/strings/strings.c:647-650 | the result length is the source length plus count times (new length minus old length), the size str_replace allocates |
| StrBuild.ReplacedNoMatch | src/strings/strings.c:644-645 | with no occurrence the replacement is the source text itself, as the clone branch returns |
| StrBuild.ReplacedSame | src/strings/strings.c:626-670 | replacing a string by itself changes nothing |
| StrBuild.ReplacedNoNul | src/strings/strings.c:626-670 | the replaced text contains no NUL, so the result is a well-formed C string |
| StrBuild.ReplacedStep | src/strings/strings.c:654-662 | one step of the build loop: at a match the replacement is emitted and old skipped, otherwise one byte is copied |
| StrBuild.MatchHere | src/strings/strings.c:655 | the str_ncmp test at position i succeeds exactly when old is a prefix of the remaining text |
| StrBuild.BuildReplaced | src/strings/strings.c:652-666 | the build loop fills the allocated buffer with exactly the replaced text and its terminator |
| StrBuild.StrReplace | src/strings/strings.c:626-670 | str_replace: NULL for any NULL argument or a failed allocation; a copy of the source for an empty old; otherwise the text with every non-overlapping occurrence of old, left to right, replaced by new |
| StrSplit.RunFrom | src/strings/strings.c:358-369 | the end of a run of delimiter (or non-delimiter) characters starting at i: every byte in between is of the kind and the byte at the end is not |
| StrSplit.RunUnique | src/strings/strings.c:358-369 | a run end is fixed uniquely by those properties, so the str_span and str_pbrk scans find exactly it |
| StrSplit.Tokens | src/strings/strings.c:351-375 | the tokens str_token hands out in turn: each non-empty and free of delimiter characters |
| StrSplit.TokensCons | src/strings/strings.c:351-375 | a token followed by a delimiter character is the first token, the rest tokenise independently |
| StrSplit.TokensSingle | src/strings/strings.c:351-375 | a non-empty text without delimiter characters is one token |
| StrSplit.CountPast | src/strings/strings.c:377-415 | a delimiter character at k counts once more than the characters after it |
| StrSplit.CountSkip | src/strings/strings.c:377-415 | skipping non-delimiter characters does not change the count of delimiter characters |
| StrSplit.TokensBound | src/strings/strings.c:377-415 | there are at most one more tokens than delimiter characters, the bound the corrected result array is sized by |
| StrSplit.MatchesSingle | src/strings/strings.c:381-386 | for a one-character delimiter the whole-string occurrence count equals the delimiter-character count |
| StrSplit.SingleCharFits | src/strings/strings.c:377-415 | so with a one-character delimiter the array str_split allocates is always large enough |
| StrSplit.SplitOverflowExample | src/strings/strings.c:381-386 | "a-b_c" split at "-_" gives three tokens while the delimiter string occurs nowhere, so str_split allocates slots for one token and the NULL |
| StrSplit.ExampleTokens | src/strings/strings.c:351-375 | "a-b_c" split at "-_" gives "a", "b" and "c" |
| StrSplit.ExampleTail | src/strings/strings.c:351-375 | "b_c" split at "-_" gives "b" and "c" |
| StrSplit.ExampleMatches | src/strings/strings.c:381-386 | "-_" occurs nowhere in "a-b_c" |
| StrSplit.JoinedCons | src/strings/strings.c:417-448 | joining a first string to a non-empty rest puts one delimiter between them |
| StrSplit.JoinedLength | src/strings/strings.c:426-431 | the joined length is the sum of the lengths plus one delimiter length between each neighbour pair, the size str_join allocates |
| StrSplit.JoinedNoNul | src/strings/strings.c:417-448 | joining NUL-free strings with a NUL-free delimiter gives a well-formed C string |
| StrSplit.SplitJoined | src/strings/strings.c:351-448 | splitting at c the join with c of non-empty strings free of c gives back those strings (the round trip of str_join and str_split) |
| StrSplit.StrToken | src/strings/strings.c:351-375 | str_token: with no token left it reports none; otherwise it cuts the first token with a NUL, returns its start and the position where the next call resumes, whose tokens are the rest |
| StrSplit.EndToken | src/strings/strings.c:365-374 | after the leading delimiters, the token is cut at the next delimiter character or runs to the end of the string |
| StrSplit.SplitTokens | src/strings/strings.c:395-413 | the tokenising loop with count + 1 slots: all token copies when they fit and were allocated, NULL on a failed copy, no defined result when a token is left after the slots run out |
| StrSplit.StrSplitAsWritten | src/strings/strings.c:377-415 | str_split as written: NULL for NULL arguments or a failed allocation; with an empty delimiter the counting loop never ends; otherwise the tokens, or no defined result when there are more tokens than occurrences of the whole delimiter plus one |
| StrSplit.CountDelims | src/strings/strings.c:381-386 | the corrected counting loop counts delimiter characters |
| StrSplit.StrSplit | src/strings/strings.c:377-415 | the corrected str_split: NULL exactly when an argument is NULL or an allocation fails; otherwise one terminated copy per token, in order |
| StrSplit.Entries | src/strings/strings.c:530-537 | the strings of a NULL-terminated array: the entries before the first NULL |
| StrSplit.JoinedPrefix | src/strings/strings.c:426-431 | the join of a prefix is never longer than the whole join |
| StrSplit.Append | src/strings/strings.c:437-445 | str_copy at ptr places the string's text after what was written before |
| StrSplit.JoinLength | src/strings/strings.c:426-431 | the length loop counts the strings and sums to exactly the joined length |
| StrSplit.JoinInto | src/strings/strings.c:437-446 | the copy loop fills the buffer with the joined text and its terminator |
| StrSplit.StrJoin | src/strings/strings.c:417-448 | str_join: NULL exactly for a NULL array, a NULL delimiter or a failed allocation; otherwise the strings before the first NULL entry joined with the delimiter, terminated |
| StrNumber.Lead | src/strings/strings.c:551-554 | the digits the conversion loop reads: the longest prefix of decimal digits |
| StrNumber.Digits | src/strings/strings.c:568-571 | the decimal digits the rendering loop writes: digits only, with no leading zero for a positive number |
| StrNumber.Rendered | src/strings/strings.c:559-582 | the text long_to_str and int_to_str produce: non-empty and free of NUL |
| StrNumber.Pow10 | src/strings/strings.c:559-582 | powers of ten are positive |
| StrNumber.LeadExact | src/strings/strings.c:551-554 | the digit prefix is fixed uniquely by where the first non-digit stands |
| StrNumber.ValuePrefix | src/strings/strings.c:551-554 | the value of a prefix of the digits never exceeds the value of all of them, so the accumulator grows monotonically |
| StrNumber.ValueSnoc | src/strings/strings.c:552 | one more digit multiplies the value by ten and adds the digit |
| StrNumber.ValueDigits | src/strings/strings.c:568-571 | reading back the rendered digits of m gives m |
| StrNumber.DigitsBound | src/strings/strings.c:732-756 | a number below 10^k has at most k digits |
| StrNumber.ParseRendered | src/strings/strings.c:540-582 | parsing the rendering of n gives back n, with magnitude abs(n) (the round trip of long_to_str and str_to_long) |
| StrNumber.IntRoundTrip | src/strings/strings.c:672-756 | str_to_int(int_to_str(n)) == n for every int but INT_MIN, without overflow |
| StrNumber.LongRoundTrip | src/strings/strings.c:540-582 | str_to_long(long_to_str(n)) == n for every long but LONG_MIN, without overflow |
| StrNumber.PlusSign | src/strings/strings.c:546-549 | str_to_int accepts a leading '+' while str_to_long stops at it and returns 0 |
| StrNumber.RenderedLength | src/strings/strings.c:559-582 | a number of magnitude below 10^k renders in at most k + 1 bytes |
| StrNumber.ParseNumber | src/strings/strings.c:540-557 | the shared conversion: 0 for NULL; otherwise defined exactly when the digit value fits the type (signed overflow is undefined) and then the signed value of the leading digits |
| StrNumber.SignFrom | src/strings/strings.c:546-549 | the sign test skips exactly one '-' (or, for str_to_int, '+') byte |
| StrNumber.Accumulate | src/strings/strings.c:551-554 | the accumulation loop stays within max exactly when the value of the leading digits does, and then computes that value |
| StrNumber.DigitStep | src/strings/strings.c:551-554 | one loop step keeps the digit run and extends the value by the next digit |
| StrNumber.DigitOver | src/strings/strings.c:551-554 | any partial value read so far bounds the final value from below |
| StrNumber.DigitEnd | src/strings/strings.c:551-554 | the loop stops exactly at the end of the digit prefix |
| StrNumber.LeadAtLeast | src/strings/strings.c:551-554 | digits read so far are a prefix of the digit prefix |
| StrNumber.StrToInt | src/strings/strings.c:672-694 | str_to_int: 0 for NULL; defined exactly when the magnitude of the leading digits fits an int, and then the signed value, within int range |
| StrNumber.StrToLong | src/strings/strings.c:540-557 | str_to_long: the same for long, with only '-' accepted as a sign |
| StrNumber.RenderNumber | src/strings/strings.c:559-582 | the shared rendering: undefined exactly for the most negative value (its negation overflows); otherwise the rendered text and NUL, or NULL when str_new fails |
| StrNumber.PutSign | src/strings/strings.c:576-577 | the '-' goes directly before the digits and nothing past them changes |
| StrNumber.CopyOut | src/strings/strings.c:581 | the final str_new copies the rendered text, or fails with the allocation |
| StrNumber.WriteDigits | src/strings/strings.c:568-571 | the digit loop writes the decimal digits right to left, ending at the top slot, and leaves everything above untouched |
| StrNumber.DigitsLast | src/strings/strings.c:568-571 | the last digit of n is n % 10, preceded by the digits of n / 10 |
| StrNumber.IntToStr | src/strings/strings.c:732-756 | int_to_str: undefined exactly for INT_MIN; otherwise the rendered text, at most 12 bytes with NUL, so it fits its 12-byte buffer |
| StrNumber.LongToStr | src/strings/strings.c:559-582 | long_to_str: undefined exactly for LONG_MIN; otherwise the rendered text, at most 21 bytes with NUL |
| StrNumber.Pow10Add | src/strings/strings.c:559-582 | 10^(a+b) == 10^a * 10^b |
| Garbage.Ptrs | src/allocator/garbage.c:64-77 | the pointers of the tracked blocks, head first |
| Garbage.FirstIndex | src/allocator/garbage.c:155-166 | the first block, from the head, tracking the pointer; None exactly when no block does |
| Garbage.Cleansed | src/allocator/garbage.c:140-152 | the closing walk of garbage_remove_block: every block keeps its place, and a block holding the freed pointer has it set to NULL |
| Garbage.Removed | src/allocator/garbage.c:108-153 | garbage_remove_block drops exactly one block when the pointer is tracked and none otherwise |
| Garbage.SumCleansed | src/allocator/garbage.c:140-152 | setting pointers to NULL does not change the total tracked size |
| Garbage.SumWithout | src/allocator/garbage.c:134 | unlinking block k takes exactly its size off the total |
| Garbage.SumAppend | src/allocator/garbage.c:100 | appending a block adds its size to the total |
| Garbage.FreeTwice | src/allocator/garbage.c:108-153 | after a pointer is removed no block tracks it, so freeing it again leaves the chain unchanged (the double-free guard) |
| Garbage.RemovedSum | src/allocator/garbage.c:108-153 | removal takes the size of the block found off the total |
| Garbage.RemovedSize | src/allocator/garbage.c:134 | current_allocated_size -= size in size_t arithmetic equals the total of the remaining chain modulo 2^64 |
| Garbage.RemovedAt | src/allocator/garbage.c:108-153 | unlinking the block the walk found and cleansing its pointer is the removal of that pointer, freeing one block of that size |
| Garbage.ConsistentAfter | src/allocator/garbage.c:108-153 | the counters still agree with the chain after an unlink: allocations minus frees is its length and the size is its total modulo 2^64 |
| Garbage.RemovedHead | src/allocator/garbage.c:191-204 | removing the head's pointer removes the head itself, even when a later block holds the same pointer |
| Garbage.GarbageContext.Init | src/allocator/garbage.c:36-62 | garbage_init: empty chain, zero counters, the requested verbosity |
| Garbage.GarbageContext.Cleanup | src/allocator/garbage.c:64-77 | garbage_cleanup frees every tracked pointer head first and resets the context to empty |
| Garbage.GarbageContext.AddBlock | src/allocator/garbage.c:79-106 | garbage_add_block appends the block at the tail, adds its size modulo 2^64 and counts the allocation; when the tracking node cannot be allocated nothing changes |
| Garbage.GarbageContext.FindBlock | src/allocator/garbage.c:155-166 | garbage_find_block returns the first block from the head tracking the pointer, or none when no block does |
| Garbage.GarbageContext.RemoveBlock | src/allocator/garbage.c:108-153 | garbage_remove_block: an untracked pointer changes nothing; otherwise its first block is unlinked, other blocks holding the pointer are set to NULL, one free is counted and the size subtracted modulo 2^64 |
| Garbage.GarbageContext.Unlink | src/allocator/garbage.c:119-134 | unlinking the found block keeps the counters consistent with the chain |
| Garbage.GarbageContext.Cleanse | src/allocator/garbage.c:140-152 | the closing walk nulls the matching pointers and changes no counter |
| Garbage.GarbageContext.FreeOldest | src/allocator/garbage.c:191-204 | garbage_free_oldest_block: an empty chain is left alone; otherwise the head block leaves the chain with one more free and its size subtracted |
| Garbage.GarbageContext.GcMalloc | src/allocator/garbage.c:206-212 | gc_malloc returns malloc's pointer and tracks it with the requested size unless it is NULL: one more allocation and the size added (mod 2^64), frees unchanged |
| Garbage.GarbageContext.GcCalloc | src/allocator/garbage.c:214-220 | gc_calloc tracks calloc's pointer with the size_t product nmemb * size, counting it as gc_malloc does |
| Garbage.GarbageContext.GcRealloc | src/allocator/garbage.c:222-246 | gc_realloc: NULL behaves as gc_malloc; otherwise the old pointer's block is removed (when tracked: one more free and its size subtracted) and the new pointer tracked unless realloc failed (one more allocation and its size added) |
| Garbage.GarbageContext.GcStrdup | src/allocator/garbage.c:248-255 | gc_strdup tracks strlen + 1 bytes (one more allocation, that size added, frees unchanged) and, when allocation succeeds, the copy holds the same text and its NUL |
| Garbage.GarbageContext.GcFree | src/allocator/garbage.c:257-260 | gc_free ignores NULL and otherwise removes the pointer's block |
| ArgsParser.FindByte | src/argsparser/argsparser.c:67-72 | the first position of a byte in a text, or None exactly when it does not occur |
| ArgsParser.Cut | src/argsparser/argsparser.c:67-72 | the option part of an argument: the prefix before the first '=' (all of it when there is none), itself free of '=' |
| ArgsParser.Attached | src/argsparser/argsparser.c:67-72 | an attached value exists exactly when the argument contains '='; the argument is then the option part, '=' and the value |
| ArgsParser.Dashes | src/argsparser/argsparser.c:74-82 | how many leading dashes the option part has: zero exactly when it does not start with '-' |
| ArgsParser.FirstUsable | src/argsparser/argsparser.c:84-92 | the first registered option whose long or short name matches and which has a callback; None exactly when none does |
| ArgsParser.ParseOutcome | src/argsparser/argsparser.c:59-124 | _parse_option consumes at most the one following argument (as an option's value) |
| ArgsParser.Invoke | src/argsparser/argsparser.c:93-118 | calling the matched option's callback consumes at most the following argument and always restores the '=' it cut |
| ArgsParser.CutAt | src/argsparser/argsparser.c:67-72 | writing NUL over the '=' leaves the option part as the argument's text and the value as the text after it |
| ArgsParser.SecondByte | src/argsparser/argsparser.c:74-82 | the second byte of the buffer is the second character of a non-empty text (the short-name test) |
| ArgsParser.DashRestored | src/argsparser/argsparser.c:74-124 | an argument starting with '-' gets its '=' back whatever happens to it |
| ArgsParser.ScanConsumesAll | src/argsparser/argsparser.c:150-177 | a successful scan has consumed every argument and added no report |
| ArgsParser.OkSilent | src/argsparser/argsparser.c:59-124 | a successful _parse_option reports nothing |
| ArgsParser.ScanNoOptions | src/argsparser/argsparser.c:150-177 | with no option registered parsing succeeds exactly when there is no argument left to read |
| ArgsParser.AttachedNotPresent | src/argsparser/argsparser.c:126-148 | "--name=value" runs the option's callback yet does not count as the option being present for the required check, which compares whole arguments |
| ArgsParser.FirstMissing | src/argsparser/argsparser.c:126-148 | the first required option not present among the arguments; None exactly when every required option is present |
| ArgsParser.FirstUsableAt | src/argsparser/argsparser.c:84-92 | the first matching option with a callback is fixed by those two properties |
| ArgsParser.MissingAt | src/argsparser/argsparser.c:126-148 | the first missing required option is fixed by those two properties |
| ArgsParser.NoneMissing | src/argsparser/argsparser.c:126-148 | no option is missing when every required one is present |
| ArgsParser.ParserContext.constructor | src/argsparser/argsparser.c:20-32 | a fresh context over the arguments with no option, no report and the scan starting after the program name |
| ArgsParser.ParserContext.ParseOption | src/argsparser/argsparser.c:59-124 | _parse_option leaves the options alone and moves the index, the reports and the argument buffer exactly as the outcome of the argument describes |
| ArgsParser.ParserContext.CutEquals | src/argsparser/argsparser.c:67-72 | the '=' is found and overwritten with NUL, so the argument's text becomes its option part |
| ArgsParser.ParserContext.Restore | src/argsparser/argsparser.c:100-121 | writing '=' back gives back the original argument buffer |
| ArgsParser.ParserContext.Lookup | src/argsparser/argsparser.c:84-92 | the option loop finds the first registered option that matches and has a callback |
| ArgsParser.ParserContext.Dispatch | src/argsparser/argsparser.c:93-118 | calling the matched option's callback with its attached, following or absent value; the buffer is restored in every branch |
| ArgsParser.ParserContext.ScanAll | src/argsparser/argsparser.c:155-167 | the argument loop of hc_parser_parse reaches exactly the state the scan of the arguments from the current index describes |
| ArgsParser.ParserContext.Step | src/argsparser/argsparser.c:155-167 | one loop step advances the index; a successful step leaves the rest of the scan unchanged, a failed one ends it |
| ArgsParser.ParserContext.CheckRequired | src/argsparser/argsparser.c:126-148 | _check_required_options succeeds exactly when no required option is missing; otherwise it reports the first missing one in registration order and stops |
| ArgsParser.ParserContext.Uses | src/argsparser/argsparser.c:131-140 | the presence loop finds the option exactly when some argument is its long or short form |
| ArgsParser.ParserInit | src/argsparser/argsparser.c:20-32 | hc_parser_init returns NULL when the context cannot be allocated, otherwise a fresh empty context over the arguments |
| ArgsParser.AddOption | src/argsparser/argsparser.c:34-57 | hc_parser_add_option succeeds exactly for a non-NULL context and a successful allocation, and then appends the option as given; nothing else changes |
| ArgsParser.Parse | src/argsparser/argsparser.c:150-177 | hc_parser_parse fails for NULL; otherwise it succeeds exactly when the scan succeeds and no required option is missing, and the index and reports are those of the scan followed, after a successful scan, by the missing-option reports |
| Ordered.SortedJoin | src/algorithms/rb_tree.c:117-151 | a left part below a key, the key's entry and a right part above it, each sorted, form a sorted sequence (the binary-search-tree order) |
| Ordered.ToMapSize | src/algorithms/rb_tree.c:201-203 | a sorted entry sequence has distinct keys: its map has exactly one key per entry, so the size counter counts keys |
| Ordered.UpsertSorted | src/algorithms/rb_tree.c:117-151 | inserting or updating a key keeps the entries sorted |
| Ordered.UpsertMap | src/algorithms/rb_tree.c:117-151 | inserting or updating a key makes the map take the new value (merged into the old buffer when the key was present) and grows the entries exactly when the key was absent |
| Ordered.RemoveAtMap | src/algorithms/rb_tree.c:287-335 | dropping one entry keeps the order and removes exactly its key from the map |
| Ordered.LookupSplit | src/algorithms/rb_tree.c:153-165 | the search decides by comparing with the node key: smaller keys are only on the left, larger only on the right |
| Ordered.LookupNone | src/algorithms/rb_tree.c:153-165 | a lookup finds nothing exactly when no key compares equal |
| Ordered.SortedFirst | src/algorithms/rb_tree.c:213-221 | the first entry of a sorted sequence holds the least key |
| Ordered.SortedLast | src/algorithms/rb_tree.c:223-231 | the last entry holds the greatest key |
| RbNode.NodeCountEntries | src/algorithms/rb_tree.c:201-203 | the node count is the number of entries in order |
| RbNode.NewNode | src/algorithms/rb_tree.c:17-35 | create_node makes a red leaf holding the key and value: red-black locally, black height 0 |
| RbNode.RotateLeft | src/algorithms/rb_tree.c:37-51 | left_rotate lifts the right child over the node and keeps the in-order entries and the node count |
| RbNode.RotateRight | src/algorithms/rb_tree.c:53-67 | right_rotate lifts the left child and keeps the in-order entries and the node count |
| RbNode.RotationsInverse | src/algorithms/rb_tree.c:37-67 | a right rotation undoes a left rotation |
| RbNode.PlugEntries | src/algorithms/rb_tree.c:69-106 | putting a subtree back into its parent path places its entries between everything on the path to the left and to the right |
| RbNode.PlugNoRedRed | src/algorithms/rb_tree.c:69-106 | a tree rebuilt from a path has no red node with a red child exactly when neither the subtree nor the path has one |
| RbNode.PlugBalanced | src/algorithms/rb_tree.c:69-106 | a tree rebuilt from a path is black-balanced exactly when the subtree is and the path matches its black height |
| RbNode.RecolourStep | src/algorithms/rb_tree.c:73-77 | the red-uncle case (recolour parent, uncle, grandparent and move up two levels) keeps the fix-up invariant: only the focus may violate the red rule |
| RbNode.RecolourEntries | src/algorithms/rb_tree.c:73-77 | recolouring changes no entry |
| RbNode.RotateRightStep | src/algorithms/rb_tree.c:78-85 | the black-uncle case on the left (optional left rotation, recolour, right rotation at the grandparent) restores the invariant |
| RbNode.RotateLeftStep | src/algorithms/rb_tree.c:94-101 | the mirrored case on the right restores it too |
| RbNode.RotateStepEntries | src/algorithms/rb_tree.c:78-101 | the rotation cases keep the in-order entries |
| RbNode.FixDone | src/algorithms/rb_tree.c:70-105 | when the loop stops (at the root or under a black parent) and the root is blackened, the tree is a red-black tree |
| RbNode.FixStart | src/algorithms/rb_tree.c:141-150 | hanging a red leaf where the search ended in a red-black tree establishes the fix-up invariant |
| RbNode.VerifyNodeCorrect | src/algorithms/rb_tree.c:233-270 | verify_node returns 1 exactly when the subtree has no red-red edge, every path has the same black count and, at the root, the root is black; the reported black height is then exact |
| RbNode.FocusOrder | src/algorithms/rb_tree.c:121-131 | in a sorted tree every key left of the focus node is below it and every key right of it above |
| RbNode.DescendLeft | src/algorithms/rb_tree.c:125-126 | going left from a node whose key is above the searched key keeps every path entry on the correct side |
| RbNode.DescendRight | src/algorithms/rb_tree.c:127-128 | going right keeps it too |
| RbNode.ClearFreedSubsequence | src/algorithms/rb_tree.c:174-195 | rb_tree_clear frees at most one node per entry, each a node of the tree |
| RbNode.ClearLeaksPromoted | src/algorithms/rb_tree.c:181-191 | rb_tree_clear as written on a black root with one red left child frees only the root: the left child it rotates up is never reached |
| RbNode.ClearAllFreesAll | src/algorithms/rb_tree.c:174-195 | the evidently intended clear, which continues at the promoted left child after each rotation, frees every node exactly once in key order |
| RbTree.RBTree.constructor | src/algorithms/rb_tree.c:108-115 | an empty tree with the given key size and comparator |
| RbTree.RBTree.Init | src/algorithms/rb_tree.c:108-115 | rb_tree_init returns -1 for a NULL comparator and otherwise 0 and an empty tree |
| RbTree.RBTree.Insert | src/algorithms/rb_tree.c:117-151 | rb_tree_insert: -1 and no change when allocation fails; otherwise the key is inserted, or its value buffer overwritten with the new bytes, the map updated, the size grown exactly for a new key, the shape unchanged for an existing key; the run is defined exactly when the memcpy over an existing value fits the old buffer, always for a new key under a black root, never for a new key under a lone red root (NULL grandparent); the root ends black and the red-black rules are kept when they held |
| RbTree.RBTree.Find | src/algorithms/rb_tree.c:153-165 | rb_tree_find returns the value of the key that compares equal, or nothing |
| RbTree.RBTree.Contains | src/algorithms/rb_tree.c:209-211 | rb_tree_contains is true exactly when the key is in the map |
| RbTree.RBTree.Size | src/algorithms/rb_tree.c:201-203 | the size is the number of entries |
| RbTree.RBTree.Empty | src/algorithms/rb_tree.c:205-207 | empty exactly when the map is empty |
| RbTree.RBTree.Min | src/algorithms/rb_tree.c:213-221 | rb_tree_min: nothing for an empty tree, otherwise the least key |
| RbTree.RBTree.Max | src/algorithms/rb_tree.c:223-231 | rb_tree_max: nothing for an empty tree, otherwise the greatest key |
| RbTree.RBTree.Remove | src/algorithms/rb_tree.c:287-335 | rb_tree_remove: -1 and no change for an absent key; otherwise 0, one entry fewer and the key gone; a node with two children takes the successor's key and key_size bytes of its value, then the successor leaves; no rebalancing; the run is defined exactly when that key_size-byte copy fits both value buffers |
| RbTree.RBTree.Clear | src/algorithms/rb_tree.c:174-195 | rb_tree_clear empties the tree and frees the nodes the as-written walk reaches |
| RbTree.RBTree.Verify | src/algorithms/rb_tree.c:272-285 | rb_tree_verify returns 1 exactly when the tree satisfies the red-black rules |
| RbTree.Search | src/algorithms/rb_tree.c:121-131 | the descent ends at the node holding the key, or at the empty spot where it belongs, with every entry on the path on the correct side |
| RbTree.FixInsert | src/algorithms/rb_tree.c:69-106 | fix_insert keeps the entries and leaves a black root; it is defined whenever the parent or the root is black and undefined when the red parent is the root (NULL grandparent); from the fix-up invariant under a black root it yields a red-black tree |
| RbTree.FixRedUncle | src/algorithms/rb_tree.c:73-77 | one red-uncle step moves the focus up, keeps the entries and the invariant |
| RbTree.FixParentLeft | src/algorithms/rb_tree.c:78-85 | the black-uncle step with the parent on the left keeps the entries and the invariant |
| RbTree.FixParentRight | src/algorithms/rb_tree.c:94-101 | the mirrored step keeps them too |
| RbTree.InsertAtLeaf | src/algorithms/rb_tree.c:140-147 | linking the new node where the search ended is inserting the absent key into the entries |
| RbTree.UpdateInPlace | src/algorithms/rb_tree.c:129-135 | copying the new value over the found node's buffer is the update of that key, and the map then holds the copied buffer under the key |
| RbTree.InsertNode | src/algorithms/rb_tree.c:117-151 | the insertion on the node graph: entries updated by the key, sorted, map updated, a new node exactly for an absent key, the same shape otherwise; defined exactly when an overwrite fits the old buffer, always for a new key under a black root, never for a new key under a lone red root; black root, red-black rules kept |
| RbTree.SpliceOut | src/algorithms/rb_tree.c:302-335 | removing a found node: a node with at most one child is replaced by that child (always defined); a node with two children receives its successor's key and key_size bytes of its value over the old value buffer, defined exactly when that copy fits both buffers, and the successor leaves; either way the found key leaves the in-order sequence |
| RbTree.TakeSuccessor | src/algorithms/rb_tree.c:305-307 | the leftmost node of the right subtree is the first of its entries |
| RbTree.SplicedKeys | src/algorithms/rb_tree.c:287-335 | either removal keeps the entries sorted, drops one entry and removes exactly the key |
| AvlNode.UpdateHeight | src/algorithms/avl_tree.c:25-30 | update_height sets the height one above the taller child, keeping the entries |
| AvlNode.RotateRight | src/algorithms/avl_tree.c:32-43 | rotate_right keeps the in-order entries and leaves exact heights |
| AvlNode.RotateLeft | src/algorithms/avl_tree.c:45-56 | rotate_left keeps the in-order entries and leaves exact heights |
| AvlNode.RotationsInverse | src/algorithms/avl_tree.c:32-56 | each rotation undoes the other |
| AvlNode.BalanceNode | src/algorithms/avl_tree.c:78-99 | balance_node keeps the in-order entries |
| AvlNode.BalanceNodeAvl | src/algorithms/avl_tree.c:78-99 | on two AVL subtrees whose heights differ by at most two, balance_node yields an AVL tree of height between the taller child's and one more; with a difference of at most one it only updates the height |
| AvlNode.LeftHeavy | src/algorithms/avl_tree.c:84-88 | the left-heavy case (an optional left rotation of the child, then a right rotation) yields an AVL tree of bounded height |
| AvlNode.RightHeavy | src/algorithms/avl_tree.c:91-95 | the right-heavy case yields one too |
| AvlNode.JoinAvl | src/algorithms/avl_tree.c:25-30 | a node over two AVL subtrees of near-equal height, with its height updated, is an AVL tree |
| AvlNode.BalanceNodeIdentity | src/algorithms/avl_tree.c:78-99 | balance_node leaves an AVL tree unchanged |
| AvlNode.InsertRec | src/algorithms/avl_tree.c:101-116 | insert_recursive returns a non-empty tree unless it was called on an empty tree and create_node failed |
| AvlNode.InsertEntries | src/algorithms/avl_tree.c:101-116 | insert_recursive inserts or updates the key in the entries; when create_node fails for a new key the entries are unchanged |
| AvlNode.UpsertLeftOf | src/algorithms/avl_tree.c:106-107 | a key below the node key is inserted into the left part only |
| AvlNode.UpsertRightOf | src/algorithms/avl_tree.c:108-109 | a key above the node key is inserted into the right part only |
| AvlNode.UpsertAt | src/algorithms/avl_tree.c:110-113 | an equal key overwrites the node's value buffer in place |
| AvlNode.InsertAvl | src/algorithms/avl_tree.c:101-116 | insert_recursive keeps the AVL balance and raises the height by at most one |
| AvlNode.InsertPresent | src/algorithms/avl_tree.c:110-113 | inserting a key that is already present changes no node's place or height |
| AvlNode.InsertFitsLookup | src/algorithms/avl_tree.c:101-116 | the descent of insert_recursive reaches a memcpy that fits exactly when the key is absent or its stored value is at least as long as the new one |
| AvlNode.ClearFreesAll | src/algorithms/avl_tree.c:156-168 | clear_recursive frees every node exactly once, in post-order |
| AvlNode.VerifyIgnoresOrder | src/algorithms/avl_tree.c:198-210 | avl_tree_verify checks balance only: an unsorted tree with correct balance passes |
| AvlTree.AVLTree.constructor | src/algorithms/avl_tree.c:118-125 | an empty tree with the given key size and comparator |
| AvlTree.AVLTree.Init | src/algorithms/avl_tree.c:118-125 | avl_tree_init returns -1 for a NULL comparator and otherwise 0 and an empty tree |
| AvlTree.AVLTree.Insert | src/algorithms/avl_tree.c:127-134 | avl_tree_insert: -1 for a NULL key or value, or when the empty tree's first node cannot be allocated; otherwise 0 and size + 1 even when the key existed or a deeper allocation failed; the entries and map are updated unless a new key's node could not be allocated; an existing key keeps the shape; the run is defined exactly when the key is new or the new value fits the old buffer |
| AvlTree.AVLTree.Find | src/algorithms/avl_tree.c:136-147 | avl_tree_find: nothing for a NULL key, otherwise the value of the key that compares equal |
| AvlTree.AVLTree.Clear | src/algorithms/avl_tree.c:156-172 | avl_tree_clear frees the nodes in post-order and empties the tree |
| AvlTree.AVLTree.Min | src/algorithms/avl_tree.c:182-188 | avl_tree_min: nothing for an empty tree, otherwise the least key |
| AvlTree.AVLTree.Max | src/algorithms/avl_tree.c:190-196 | avl_tree_max: nothing for an empty tree, otherwise the greatest key |
| AvlTree.Leftmost | src/algorithms/avl_tree.c:184-187 | the leftmost node holds the first entry |
| AvlTree.Rightmost | src/algorithms/avl_tree.c:192-195 | the rightmost node holds the last entry |
| AvlTree.Size | src/algorithms/avl_tree.c:174-176 | avl_tree_size: 0 for NULL; the counter is never below the number of keys |
| AvlTree.Empty | src/algorithms/avl_tree.c:178-180 | avl_tree_empty: true for NULL; otherwise true exactly when no key is stored |
| AvlTree.Verify | src/algorithms/avl_tree.c:198-210 | avl_tree_verify: 0 for NULL; otherwise 1 exactly when every node's heights are balanced (Balanced), so 1 for every tree the operations build |
| AvlTree.InsertRoot | src/algorithms/avl_tree.c:127-134 | the recursive insertion from the root keeps the order and the balance, inserts or updates the key (or leaves the entries when a new node cannot be allocated) and is empty only when the tree was empty and allocation failed |
| Chains.EmptyBuckets | src/algorithms/hash_table.c:41-51 | calloc'd buckets: capacity empty chains |
| Chains.EmptyRepresents | src/algorithms/hash_table.c:41-51 | empty buckets represent the empty map |
| Chains.ChainFind | src/algorithms/hash_table.c:131-144 | the chain walk stops at the first entry the comparator calls equal, and reports whether the key has an entry in the chain |
| Chains.ChainMissing | src/algorithms/hash_table.c:131-144 | a chain has no value for a key exactly when no entry has that key |
| Chains.LookupReplace | src/algorithms/hash_table.c:67-74 | replacing an entry's value changes the lookup of that key only |
| Chains.LookupRemove | src/algorithms/hash_table.c:110-122 | unlinking an entry removes its key and keeps every other lookup |
| Chains.LookupAppend | src/algorithms/hash_table.c:23-33 | entries further along a chain are found only when no earlier entry has the key |
| Chains.UpdateBucket | src/algorithms/hash_table.c:53-129 | replacing one bucket whose chain agrees with the new map on its keys, while the map is unchanged elsewhere, makes the buckets represent the new map |
| Chains.Rehash | src/algorithms/hash_table.c:19-39 | resize_table moves every entry into new_capacity buckets by hash % new_capacity and keeps the map |
| Chains.MoveEntry | src/algorithms/hash_table.c:25-32 | moving one entry to the front of its new bucket keeps the map built so far |
| Chains.PrependEntry | src/algorithms/hash_table.c:96-98 | pushing a new entry onto the head of its bucket adds exactly that key |
| HashTable.HashTable.constructor | src/algorithms/hash_table.c:41-51 | a table of the given capacity with empty buckets and no entries |
| HashTable.HashTable.Init | src/algorithms/hash_table.c:41-51 | hash_table_init fails exactly when the buckets cannot be allocated; otherwise an empty table of the requested capacity |
| HashTable.HashTable.Resize | src/algorithms/hash_table.c:19-39 | resize_table keeps the contents and size; on success the capacity becomes the new one, on failure nothing changes |
| HashTable.HashTable.Insert | src/algorithms/hash_table.c:53-101 | hash_table_insert doubles the capacity first when size/capacity >= 0.75 (failing if that fails); then it sets the key's value, adding a new key at the head of its bucket, or fails on allocation without changing the contents; size grows exactly for a new key; without a resize no other bucket changes |
| HashTable.HashTable.Remove | src/algorithms/hash_table.c:103-129 | hash_table_remove reports whether the key was present, removes it, decrements the size for it, and touches no other bucket |
| HashTable.HashTable.Find | src/algorithms/hash_table.c:131-144 | hash_table_find returns the key's value, or nothing when it is absent |
| HashTable.HashTable.Size | src/algorithms/hash_table.c:146-148 | the size is the number of keys |
| HashTable.HashTable.Empty | src/algorithms/hash_table.c:150-152 | empty exactly when there is no key |
| HashTable.HashTable.Clear | src/algorithms/hash_table.c:154-167 | hash_table_clear empties every bucket and keeps the capacity |
| HashTable.HashTable.Destroy | src/algorithms/hash_table.c:169-174 | hash_table_destroy leaves no buckets and capacity 0 |
| HashTable.Put | src/algorithms/hash_table.c:53-101 | setting a key in the buckets: a new key at the head of its bucket, other buckets unchanged, the new map represented |
| HashTable.Take | src/algorithms/hash_table.c:103-129 | unlinking a key: the map without it represented, nothing changed when it was absent, other buckets unchanged |
| HashTable.NewHead | src/algorithms/hash_table.c:96-98 | a new head entry makes the key's lookup return its value and keeps every other lookup |
| HashMap.Map.constructor | src/algorithms/map.c:46-62 | a map of the given capacity with empty buckets and no entries |
| HashMap.Map.Init | src/algorithms/map.c:46-62 | map_init: a zero capacity becomes 16; -1 exactly when the buckets cannot be allocated, otherwise 0 and an empty map |
| HashMap.Map.Resize | src/algorithms/map.c:64-87 | map_resize doubles the capacity and keeps the contents, or returns -1 and changes nothing |
| HashMap.Map.Insert | src/algorithms/map.c:89-124 | map_insert doubles first when size/capacity >= 0.75 (-1 if that fails); then it sets the key's value, adding a new key at the head of its bucket, or returns -1 on a failed allocation with the contents unchanged; size grows exactly for a new key |
| HashMap.Map.Get | src/algorithms/map.c:126-138 | map_get returns the key's value, or nothing when it is absent |
| HashMap.Map.Contains | src/algorithms/map.c:166-168 | map_contains is true exactly for a present key |
| HashMap.Map.Erase | src/algorithms/map.c:140-164 | map_erase returns 0 and removes the key when present, -1 and changes nothing otherwise |
| HashMap.Map.Size | src/algorithms/map.c:170-172 | the size is the number of keys |
| HashMap.Map.Empty | src/algorithms/map.c:174-176 | empty exactly when there is no key |
| HashMap.Map.Clear | src/algorithms/map.c:178-191 | map_clear empties every bucket and keeps the capacity |
| HashMap.Map.Destroy | src/algorithms/map.c:193-198 | map_destroy leaves no buckets and capacity 0 |
| HashMap.HashString | src/algorithms/map.c:201-210 | map_hash_string computes djb2 (h * 33 + c from 5381, characters as signed char, modulo 2^64) over the text |
| HashMap.HashInt | src/algorithms/map.c:212-214 | map_hash_int converts the int to size_t, agreeing with the key modulo 2^32 |
| HashMap.HashIntInjective | src/algorithms/map.c:212-214 | distinct int keys get distinct hashes |
| HashMap.CompareIntDecidesEquality | src/algorithms/map.c:221-223 | map_compare_int, though its subtraction can wrap, is zero exactly for equal keys, which is all the map asks of it |
| LinkedList.List.constructor | src/algorithms/list.c:18-23 | list_init: the empty list |
| LinkedList.List.PushBack | src/algorithms/list.c:45-59 | list_push_back appends the element, or returns -1 and changes nothing when the node cannot be allocated |
| LinkedList.List.PushFront | src/algorithms/list.c:61-75 | list_push_front prepends the element, or returns -1 and changes nothing |
| LinkedList.List.PopBack | src/algorithms/list.c:77-93 | list_pop_back returns -1 on an empty list, otherwise drops the last element |
| LinkedList.List.PopFront | src/algorithms/list.c:95-111 | list_pop_front returns -1 on an empty list, otherwise drops the first element |
| LinkedList.List.Walk | src/algorithms/list.c:120-123 | following next index times from the head reaches the node holding element index |
| LinkedList.List.Get | src/algorithms/list.c:113-125 | list_get returns element index, or NULL when index is out of bounds |
| LinkedList.List.Insert | src/algorithms/list.c:127-151 | list_insert places the element before position index (index == size appends), or returns -1 and changes nothing for index > size or a failed allocation |
| LinkedList.List.Erase | src/algorithms/list.c:153-174 | list_erase removes element index, or returns -1 and changes nothing for index >= size |
| LinkedList.List.Front | src/algorithms/list.c:176-182 | list_front: the first element, NULL for an empty list |
| LinkedList.List.Back | src/algorithms/list.c:184-190 | list_back: the last element, NULL for an empty list |
| LinkedList.List.Empty | src/algorithms/list.c:192-194 | empty exactly when there is no element |
| LinkedList.List.Size | src/algorithms/list.c:196-198 | the size counter equals the number of elements |
| LinkedList.List.Clear | src/algorithms/list.c:200-204 | list_clear pops until the list is empty |
| LinkedList.List.Destroy | src/algorithms/list.c:206-211 | list_destroy leaves the list empty |
| LinkedList.InsertThenErase | src/algorithms/list.c:127-174 | erasing at the index just inserted at gives back the original list |
| Vectors.Vector.constructor | src/algorithms/vector.c:21-36 | an empty vector whose buffer has the given capacity |
| Vectors.Vector.Init | src/algorithms/vector.c:21-36 | vector_init: a non-positive capacity becomes 1; -1 exactly when the buffer cannot be allocated, otherwise 0 and an empty vector |
| Vectors.Vector.Resize | src/algorithms/vector.c:38-58 | the intended vector_resize: capacity 0 becomes 1, otherwise doubles, with the buffer reallocated and the elements kept; on failure nothing changes |
| Vectors.Vector.ResizeAsWritten | src/algorithms/vector.c:38-58 | vector_resize as written raises the capacity before realloc, so on failure the recorded capacity exceeds the buffer; a full vector then looks non-full and the next push writes past the buffer |
| Vectors.Vector.PushBack | src/algorithms/vector.c:60-82 | vector_push_back over the intended resize: it grows a full vector first; it appends the element, or returns -1 with the elements unchanged when growing or copying fails; the capacity is unchanged unless the vector was full and growing succeeded, then it is 1 from 0 or doubled |
| Vectors.Vector.Insert | src/algorithms/vector.c:84-112 | the intended vector_insert: -1 and no change for an index outside 0..size or a failed allocation; otherwise the element is placed before position index; the capacity grows exactly as in push_back, and only for a valid index |
| Vectors.Vector.Erase | src/algorithms/vector.c:114-130 | vector_erase removes element index, or returns -1 and changes nothing for an index outside 0..size-1 |
| Vectors.Vector.Clear | src/algorithms/vector.c:132-139 | vector_clear empties the vector and keeps its buffer and capacity |
| Vectors.Vector.Empty | src/algorithms/vector.c:141-143 | empty exactly when there is no element |
| Vectors.Vector.Get | src/algorithms/vector.c:161-170 | vector_get: element index, NULL for an index outside 0..size-1 |
| Vectors.Vector.Front | src/algorithms/vector.c:145-151 | vector_front: the first element, NULL for an empty vector |
| Vectors.Vector.Back | src/algorithms/vector.c:153-159 | vector_back: the last element, NULL for an empty vector |
| Vectors.Vector.Size | src/algorithms/vector.c:172-174 | the size is the number of elements |
| Vectors.Vector.Capacity | src/algorithms/vector.c:176-178 | the capacity is the buffer length, never below the size |
| Vectors.Vector.Destroy | src/algorithms/vector.c:180-192 | vector_destroy leaves size and capacity 0 |
| Vectors.ShiftRight | src/algorithms/vector.c:97-100 | the shift loop moves elements index..size-1 one slot right, leaving the rest |
| Vectors.ShiftLeft | src/algorithms/vector.c:122-126 | the shift loop moves elements index+1..size-1 one slot left, leaving the rest |
| Vectors.InsertAsWritten | src/algorithms/vector.c:84-112 | vector_insert as written shifts before allocating: on success the element is inserted, but on a failed allocation the size is unchanged while the elements have already been shifted |
| Vectors.ShiftedOnlyLoses | src/algorithms/vector.c:97-106 | a failed insert at 0 into [x, y] leaves [x, x]: y is lost and x duplicated |
| SkipLists.TopLevel | src/algorithms/skip_list.c:121-123 | the highest level reached by any node, the level at which a shrinking list stops; 0 for no nodes |
| SkipLists.Forward | src/algorithms/skip_list.c:58-60 | the level-i forward pointer from position p: the first later node tall enough to be linked at level i, skipping only nodes too short for it |
| SkipLists.ForwardSkip | src/algorithms/skip_list.c:58-60 | nodes too short for level i are invisible at that level: following level i from before or after them reaches the same node |
| SkipLists.ChainNested | src/algorithms/skip_list.c:79-82 | the keys linked at level i+1 are a subsequence of those at level i, the defining skip-list shape |
| SkipLists.ChainBase | src/algorithms/skip_list.c:45-51 | level 0 links every node, in key order, which is the chain the destroy walk follows |
| SkipLists.Find | src/algorithms/skip_list.c:88-102 | a key is found exactly when some node carries it |
| SkipLists.FindAppend | src/algorithms/skip_list.c:88-102 | a lookup in a concatenation answers from the first part when the key is there, otherwise from the second |
| SkipLists.FindAt | src/algorithms/skip_list.c:97-101 | in a strictly ordered list, the node right after the last smaller key decides the search: it carries the key or the key is absent |
| SkipLists.RandomLevel | src/algorithms/skip_list.c:15-21 | random_level with the random draws as coins: 1 plus the number of leading successful draws, never above MAX_LEVEL |
| SkipLists.Advance | src/algorithms/skip_list.c:58-60 | one level of the descent: moves past exactly the keys below the searched key, so afterwards every node tall enough for this level from here on has a key not below it |
| SkipLists.Descend | src/algorithms/skip_list.c:54-63 | the full descent: stops before the first key not below the searched key, and the update vector at each level points to a node whose forward pointer there is the one the new or removed node takes over |
| SkipLists.InsertNode | src/algorithms/skip_list.c:54-86 | on node sequences: an existing key gets its value replaced (0, nothing else changes); a new key is linked with a random level (1), the list level rises to it, order and lookups of other keys are preserved |
| SkipLists.DeleteNode | src/algorithms/skip_list.c:104-135 | on node sequences: the key is removed (1) or absent (0, list and level unchanged); other lookups are preserved and the level is trimmed to the highest remaining node |
| SkipLists.Shrink | src/algorithms/skip_list.c:121-123 | the trimming loop lowers the level to the tallest remaining node, but never below 1 |
| SkipLists.Unlink | src/algorithms/skip_list.c:114-119 | the unlink loop rewires exactly the levels of the removed node, stopping at its height |
| SkipLists.SkipList.constructor | src/algorithms/skip_list.c:32-41 | skip_list_create: no nodes, level 1, size 0, and every header pointer is NULL |
| SkipLists.SkipList.Insert | src/algorithms/skip_list.c:54-86 | skip_list_insert: 0 and the value replaced for a present key, otherwise 1 and a new node; other lookups unchanged, size grows by the result, the list stays ordered |
| SkipLists.SkipList.Search | src/algorithms/skip_list.c:88-102 | skip_list_search: NULL exactly when no node carries the key, otherwise that node with its value |
| SkipLists.SkipList.Delete | src/algorithms/skip_list.c:104-135 | skip_list_delete: 1 exactly when the key was present; afterwards it is absent, other lookups are unchanged, size drops by the result, and a miss leaves the list alone |
| SkipLists.SkipList.Destroy | src/algorithms/skip_list.c:43-52 | skip_list_destroy follows level 0 and frees every node plus the header |
| SkipLists.TopLevelAppend | src/algorithms/skip_list.c:121-123 | the top level of a concatenation is the larger of the two parts' top levels |
| SkipLists.FindSplit | src/algorithms/skip_list.c:88-102 | a lookup around one node answers from the prefix, then that node, then the suffix |
| SkipLists.TopLevelSplit | src/algorithms/skip_list.c:121-123 | the top level around one node is the maximum of the prefix, that node and the suffix |
| SkipLists.PrefixMisses | src/algorithms/skip_list.c:97-101 | in an ordered list a key cannot occur before its own node |
| SkipLists.ReplacedValid | src/algorithms/skip_list.c:65-68 | replacing a node's value in place keeps the list well formed and its level, and only that key's lookup changes |
| SkipLists.ReplacedWellFormed | src/algorithms/skip_list.c:65-68 | a value replacement keeps keys strictly ordered and levels in range |
| SkipLists.InsertedValid | src/algorithms/skip_list.c:78-84 | inserting a node between the smaller and the larger keys keeps the list ordered, raises the top level to the node's level at most, and changes only the new key's lookup |
| SkipLists.InsertedTop | src/algorithms/skip_list.c:71-76 | inserting a node raises the top level to its level when it is taller |
| SkipLists.InsertedFind | src/algorithms/skip_list.c:78-84 | after inserting a node past the smaller keys, its key finds it and every other lookup is unchanged |
| SkipLists.InsertedWellFormed | src/algorithms/skip_list.c:78-84 | the node linked after the update positions keeps keys strictly ordered and sits at that position |
| SkipLists.RemovedValid | src/algorithms/skip_list.c:114-125 | removing a node keeps the list ordered, cannot raise the top level, and only its key's lookup changes, to absent |
| SkipLists.RemovedTop | src/algorithms/skip_list.c:121-123 | removing a node cannot raise the top level |
| SkipLists.RemovedFind | src/algorithms/skip_list.c:114-119 | after removing a node from between smaller and larger keys, its key is absent and every other lookup is unchanged |
| SkipLists.RemovedWellFormed | src/algorithms/skip_list.c:114-119 | removing a node keeps keys strictly ordered and levels in range |

## Left out

- RbTree.RBTree.Insert: under a red root (possible after rb_tree_remove) the model follows fix_insert step by step and sets `defined == false` where it reaches the NULL grandparent. The contract pins `defined` down for an existing key, for a black root and for a lone red root, not for every red-root tree.
- Common.CopyBytes: the bytes it returns equal memcpy's only when CopyFits holds. Past either buffer, C is undefined; the model then keeps the bytes inside both buffers and reports the run through `defined == false` in RbTree.RBTree.Insert, RbTree.RBTree.Remove and AvlTree.AVLTree.Insert.
- Ordered.UpsertMap: the value stored for an existing key is CopyBytes of the old buffer; it equals the new value only when CopyFits holds, which RBTree.Insert and AVLTree.Insert report through `defined`.
- RbTree.UpdateInPlace: the copied buffer is CopyBytes, so it matches memcpy only when CopyFits holds; RbTree.InsertNode reports the other case as `defined == false`.
- AvlNode.InsertRec: the overwrite of an equal key is CopyBytes; AvlNode.InsertFits decides whether that memcpy fits, and AvlTree.AVLTree.Insert reports the other case as `defined == false`.
- AvlNode.UpsertAt: states the entries after CopyBytes; the overrun case is reported by AvlTree.AVLTree.Insert through `defined`, not here.
- HashTable.HashTable.Init: requires a positive capacity, because with capacity 0 every later `% capacity` divides by zero.
- HashTable.HashTable.constructor: requires a positive capacity, for the same reason.
- HashMap.Map.constructor: requires a positive capacity. HashMap.Map.Init itself replaces 0 by INITIAL_CAPACITY as map_init does.
- Trees and chains are values inside their classes, so aliasing between nodes and the address identity of nodes are not modelled. The freed-node sequences of clear/destroy stand for the calls to free.
- rb_tree_destroy and avl_tree_destroy are clear followed by free of the tree; they are not separate members.
- avl_tree_insert increments size even when the key was already present or the allocation failed; the model keeps that counter as written, so AvlTree.Size only bounds the number of entries from above.
- rb_tree_remove copies key_size bytes of the successor's value. When key_size exceeds either value buffer the copy is undefined in C; RbTree.SpliceOut and RbTree.RBTree.Remove report that as `defined == false`, and the model's tree then holds the clamped CopyBytes result.
- The floating-point functions str_to_double, double_to_str, compare_float and compare_double are not modelled.
- compare_str, compare_strn, compare_mem and map_compare_string only call the C library's strcmp, strncmp and memcmp; compare_ptr compares addresses. None of them is modelled separately; StrQuery.StrCmp models the library's own str_cmp.
- str_clone is a call of str_new (StrBuild.StrNew).
- str_array_free and hc_parser_free only release memory and are not modelled.
- NULL destination arrays passed to the in-place string functions: Dafny arrays are never null. Every `const char *` parameter, the sources of the copy and concatenation functions included, models NULL as `None`.
- Printing is not modelled: verbose_printf, garbage_report_usage, hc_display_help, skip_list_print and the fprintf error messages of list.c.
- The ParserConfig error handlers are recorded as a list of reports, not called. Callbacks are pure functions from their argument to an int status, so their side effects are not modelled.
- argc is the length of argv.
- ArgsParser.AddOption: strdup of the name and description is assumed to succeed; only the growth of the options array can fail.
- The memory blocks of garbage.c themselves are not modelled, only the tracking chain and its counters. current_allocated_size wraps modulo 2^64; the other size_t counters are unbounded.
- time(NULL) and the addresses returned by malloc, calloc and realloc are parameters.
- random_level draws from rand(); the draws are a sequence of coin outcomes given to SkipLists.SkipList.Insert.
- The malloc calls of skip_list.c (create_node and skip_list_create) are not checked by the source before use. The model lets them succeed.
- Vectors.Vector.PushBack: it grows through the corrected Resize, so a failed realloc keeps the old capacity; vector_push_back as written calls the vector_resize that leaves the capacity doubled on failure (Vectors.Vector.ResizeAsWritten, see Findings).
- HashTable.HashTable.Valid and HashMap.Map.Valid require a comparator that returns 0 exactly for equal keys (Chains.DecidesEquality). A comparator that returns 0 for some unequal keys, which the C accepts and then treats those keys as one, is outside the model.
- merge_sort's copy loops into the temporary L and R buffers are modelled as sequence slices.
- radix_sort_int: negative elements index count[] with a negative digit, and exp *= 10 overflows once the maximum reaches 10^9. The model stops there with `defined == false` and promises only the permutation.
- Compare.CompareInt: signed overflow of `a - b` is undefined in C; the model takes the two's-complement wrap that common compilers produce (the misordering it causes is in Findings).
- HashTable.HashTable.Insert: the load factor `(float)size / capacity >= 0.75` is modelled in exact arithmetic as `4 * size >= 3 * capacity`. The two agree while size and capacity are exact floats and the quotient's rounding cannot reach 0.75; from capacities of about 2^23 they can differ.
- HashMap.Map.Insert: the same load-factor check, modelled the same way.
- long_to_str on LONG_MIN and int_to_str on INT_MIN negate out of range; str_to_int and str_to_long overflow on long digit runs. These are reported as undefined.

## Findings

| source | as written | input that shows it | evidently intended | confidence | as-written member | corrected member |
|---|---|---|---|---|---|---|
| src/algorithms/compare.c:36-38 | compare_int returns the int difference `a - b`, which overflows | a = INT_MAX, b = -1: the wrapped difference is negative, so INT_MAX orders below -1 | a three-way comparison whose sign orders every pair of ints | not executed | Compare.CompareIntOverflow | Compare.CompareIntOrdered |
| src/algorithms/vector.c:38-58 | vector_resize stores the doubled capacity before realloc and keeps it when realloc fails | a full vector of capacity 1 whose realloc fails: capacity reads 2 over a 1-element buffer, and the next push writes past it | on failure, capacity and buffer stay unchanged | not executed | Vectors.Vector.ResizeAsWritten | Vectors.Vector.Resize |
| src/algorithms/vector.c:84-112 | vector_insert shifts the elements right before it allocates the new element, and returns -1 without undoing the shift | [x, y] with spare capacity, insert at 0, malloc fails: the vector holds [x, x] and y is lost | a failed insert leaves the elements unchanged | not executed | Vectors.ShiftedOnlyLoses | Vectors.Vector.Insert |
| src/strings/strings.c:340-348 | str_trim_right stops its backwards scan at index 1, so it never tests the first character | "   " (three blanks) becomes " " instead of "" | every trailing blank is removed, including a string of blanks only | not executed | StrEdit.TrimRightKeepsBlank | StrEdit.StrTrimRight |
| src/strings/strings.c:377-415 | str_split sizes the result by occurrences of the whole delimiter string but cuts a token at every delimiter character | "a-b_c" with delimiter "-_": 3 tokens plus the NULL are written into 2 slots | the array has room for every token the loop produces plus the terminating NULL | not executed | StrSplit.SplitOverflowExample | StrSplit.StrSplit |
| src/algorithms/rb_tree.c:174-195 | rb_tree_clear promotes a left child into the current node's place but never visits it, freeing only the original node | a black root with a single red left child: only the root is freed | every node of the tree is freed | not executed | RbNode.ClearLeaksPromoted | RbNode.ClearAllFreesAll |
