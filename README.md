# PWMScan core in Dafny

This project models the computational core of PWMScan, a scanner that finds the matches of
position weight matrices (PWMs) in genomes, and proves properties of that model. It covers
six parts of the C code:

- **The chained hash table** (`hashtable.c`). It has `key_num` buckets, each a singly linked
  chain of key/value nodes, plus a `key_count` and an ownership `mode`. The model covers
  `add`, `remove`, `lookup`, `has_key`, `get_keys`, `get_elements`, `resize` and `iterate`.
  It also covers the MurmurHash3_x86_32 hash (seed 42, reduced modulo the bucket count) and
  the copy/free policy of each mode.
- **The branch-and-bound L-mer enumerator** (`mba.c`). A preorder walk over the 4-ary tree of
  nucleotide words moves with `next_vertex` and `by_pass`. It prunes every subtree whose
  score plus the best obtainable rest (the drop-off values of `drop_off_init`) stays under
  the cut-off, and counts the words that reach it.
- **The integer PWM transforms** (`matrix.c`). `reverse_matrix` builds the reverse-complement
  matrix. `rescale_matrix` subtracts each column's maximum.
- **The letter code** (`hash.h`). `CHAR_HASH` and `GET_CHAR` turn capital letters into row
  indices 0..25 and back.
- **The text readers and the result writer** (`io.c`): `readline`, `read_matrix_file`,
  `read_fasta_entry` and `write_result`. A `FILE *` is a `Stream` holding the whole text and a
  read position.
- **The BED-to-SGA converter** (`mscan_bed2sga.c`). `process_ac` fills a copying hash table
  mapping `chr<nb>` to accessions. `process_bed` tokenises each BED line, computes the SGA
  position and looks the chromosome up.

**Module layout.** Each module follows one source file:

| module | models |
|---|---|
| `Options` | the optional value used by every other module |
| `Maxima` | the maximum of a sequence, shared by `find_max` (`mba.c`) and `rescale_matrix` (`matrix.c`) |
| `CharHash` | `hash.h` |
| `Murmur` | the hash functions of `hashtable.c` |
| `Chains` | chain operations and bucket-array specifications, as functions |
| `HashTable` | the `hash_table_t` class |
| `Mba` | `mba.c` |
| `PwmMatrix` | `matrix.c` |
| `CText` | the C library routines the readers rely on (`isspace`, `toupper`, `atoi`, one `%d` conversion) |
| `TextIo` | `io.c` |
| `Bed2Sga` | the per-line tokenising of `mscan_bed2sga.c` |
| `Bed2SgaFiles` | the line loops of `process_bed` and `process_ac` |

**Imperative code stays imperative.** The following are methods with loop invariants, each
proved against a specification function:

- the hash table, as a class whose `storeHouse` array of chains the methods rewrite;
- the tree walk over the array `s`;
- the matrix loops over `array2` storage;
- the growable buffers of `readline` and `read_fasta_entry`;
- the copy loops of the BED tokeniser.

The specification functions have their properties proved as lemmas.

## Model

| member | source | states |
|---|---|---|
| CharHash.CRem | hash.h:10 | C's `%` on int: the remainder lies in [0, b) for a non-negative dividend and in (-b, 0] for a negative one |
| CharHash.GetChar | hash.h:11 | GET_CHAR of a code in [0, 26) is a capital letter |
| CharHash.HashRange | hash.h:9-10 | every capital letter has a code in [0, NB_LETTER) |
| CharHash.RoundTrip | hash.h:10-11 | GET_CHAR undoes CHAR_HASH on capitals, and CHAR_HASH undoes GET_CHAR on codes 0..25 |
| CharHash.HashInjective | hash.h:10 | two capitals with the same code are the same letter |
| CharHash.NucleotideRows | hash.h:10-14 | A, C, G and T have rows 0, 2, 6 and 19, and HASH_N is 13 |
| CharHash.OutsideCapitals | hash.h:10 | outside the capitals a code is no row: 'a' collides with 'G', and '0' is negative |
| Murmur.Rotl32Inverse | hashtable.c:468-471 | the rotations by 13 and 15 lose no bit: rotating by the complement restores the word |
| Murmur.HashIndex | hashtable.c:554-563 | hash_table_do_hash always gives an index below the bucket count |
| Murmur.EmptyKnownAnswers | hashtable.c:500-552 | the model gives the published MurmurHash3_x86_32 answers for the empty input with seeds 0 and 1 |
| Murmur.TestKnownAnswer | hashtable.c:515-528 | the model gives the published answer 0xba6bd213 for "test" with seed 0 (one block, no tail) |
| Murmur.KeyABucket | hashtable.c:533-563 | with seed 42, the one-byte key "A" (tail path) hashes to 0x1e754817 and lands in bucket 23 of 128 |
| Chains.FindFrom | hashtable.c:293-309 | the position found is the first one at or after `from` whose key matches; none is found exactly when no key there matches |
| Chains.LookupFirstMatch | hashtable.c:279-311 | lookup finds a value exactly when some node carries the key, and the value is that of the first such node |
| Chains.AddLength | hashtable.c:174-210 | add keeps the chain length when it replaces a node and adds exactly one node otherwise |
| Chains.LookupAfterAdd | hashtable.c:174-210 | after add(k, v), lookup(k) finds v, except when the head already carried k |
| Chains.LookupOtherAfterAdd | hashtable.c:174-210 | adding under one key never changes what another key finds |
| Chains.HeadDuplicate | hashtable.c:183-207 | re-adding the head's key appends a second node, and lookup keeps returning the old value |
| Chains.IntendedAddCorrect | hashtable.c:174-210 | with the head compared too, lookup(k) finds v after add(k, v), keys stay distinct, and the chain grows only for a new key |
| Chains.RemoveMembers | hashtable.c:237-265 | remove never puts a node into a chain |
| Chains.RemoveSpec | hashtable.c:232-265 | a miss leaves the chain unchanged; a hit at any position but the second takes out exactly that node |
| Chains.LookupAfterRemove | hashtable.c:237-265 | in a chain of distinct keys, the removed key can no longer be found |
| Chains.RemoveDropsHead | hashtable.c:250-257 | removing the second node of a two-node chain empties it, so the head's key is lost too |
| Chains.IntendedRemoveCorrect | hashtable.c:237-265 | unlinking only the match removes one node on a hit and changes the lookup of no other key |
| Chains.EmptyChains | hashtable.c:63-66 | the fresh bucket array has n buckets, all empty |
| Chains.FlattenEmpty | hashtable.c:63-66 | a fresh bucket array holds no element |
| Chains.Bucket | hashtable.c:554-563 | the bucket of a key is below the bucket count |
| Chains.Rehash | hashtable.c:599-608 | the rebuild of resize has exactly the requested number of buckets |
| Chains.RehashStep | hashtable.c:599-608 | resize re-adds the listed elements from the last one to the first |
| Chains.InsertFacts | hashtable.c:107-212 | add keeps every node in the bucket of its key, and adds one node unless it replaced one |
| Chains.RemoveFacts | hashtable.c:222-269 | remove keeps every node in its bucket and takes out at least one node on a hit |
| Chains.RehashPlaced | hashtable.c:573-614 | after resize every element sits in its key's bucket, and no element was added |
| Chains.RehashKeepsElements | hashtable.c:573-614 | with no repeated key, resize keeps exactly the same elements (as a multiset) |
| Chains.DistinctLookup | hashtable.c:279-311 | with distinct keys, lookup(k) finds v exactly when the node (k, v) is in the chain |
| Chains.ResizeSwapsDuplicates | hashtable.c:599-608 | two nodes of one key (from the add bug) come back in reverse order after resize, so lookup then finds the other value |
| Chains.ChainAddKeys | hashtable.c:174-210 | adding to a chain adds exactly the node's key to the chain's keys (a replaced node carried it already) |
| Chains.InsertAtKeys | hashtable.c:107-212 | putting a node into its key's bucket adds exactly its key to the keys of the table |
| Chains.RehashKeys | hashtable.c:573-614 | resize keeps exactly the keys of the listed elements, duplicates included |
| Chains.FlattenMembers | hashtable.c:393-429 | a node is among the listed elements exactly when it is in some bucket |
| Chains.PlacedCarries | hashtable.c:279-311 | when every node sits in its key's bucket, that bucket carries a key exactly when some node of the table does |
| Chains.Keep | hashtable.c:629-652 | iterate never lengthens a chain |
| Chains.KeepAll | hashtable.c:628-652 | iterate keeps the number of buckets |
| Chains.KeepAllPlaced | hashtable.c:623-655 | iterate never moves a node to another bucket |
| Chains.FilterDone | hashtable.c:628-652 | once every bucket is filtered, the table holds all nodes but the selected ones |
| Chains.KeepIsFilter | hashtable.c:629-652 | a node survives iterate exactly when its callback returned 0 |
| Chains.FlattenKeepAll | hashtable.c:623-655 | filtering bucket by bucket filters the element list: survivors keep their relative order |
| Chains.KeepCount | hashtable.c:629-652 | iterate removes exactly the nodes the callback selects |
| HashTable.OwnershipAgrees | hashtable.c:32-45 | in every mode a node frees exactly the buffers add copied for it; an all-reference table copies and frees nothing |
| HashTable.WalkToKey | hashtable.c:237-265 | remove's walk stops at the first node carrying the key, or at the end exactly when none does, with `prev` on the node before it (the head for the first two) |
| HashTable.Table.constructor | hashtable.c:54-74 | a new table has 128 empty buckets, ratio 4, no keys, the given mode and the seed-42 hash |
| HashTable.AddToKeys | hashtable.c:107-212 | add, growth included, keeps every node in its key's bucket, and the keys held become the old ones plus the new key |
| HashTable.Table.Add | hashtable.c:107-212 | add grows to twice the buckets when key_count / key_num reaches the ratio, then puts the node into its key's bucket; the count grows unless a node was replaced; buckets and count together are AddTo of the old ones |
| HashTable.Table.GrowIfLoaded | hashtable.c:109-114 | the growth test rehashes into twice as many buckets exactly when the load reached the ratio, and the table stays under its load bound |
| HashTable.Table.LinkNode | hashtable.c:174-210 | the chain walk links the node in as ChainAdd says, changes no other bucket, and counts a new node |
| HashTable.Table.Resize | hashtable.c:573-614 | resize reports -1 and changes nothing on an empty table; otherwise it rehashes the listed elements into the new buckets, restores the mode and returns 0 |
| HashTable.Table.Refill | hashtable.c:599-608 | the re-adding loop builds the rehash of the listed elements, and the count is the node count |
| HashTable.Table.Remove | hashtable.c:222-269 | remove shrinks when key_num / key_count reaches the ratio, then unlinks from the key's bucket; 0 and one fewer key on a hit, -1 on a miss |
| HashTable.Table.ShrinkIfSparse | hashtable.c:225-230 | the shrink test rehashes into half as many buckets exactly when the table is sparse |
| HashTable.Table.UnlinkNode | hashtable.c:232-268 | the end of remove: the bucket becomes ChainRemove of it, nothing else changes, and the status and count follow whether the key was there |
| HashTable.Table.Lookup | hashtable.c:279-311 | lookup returns the value of the first node of the key's bucket carrying the key, and NULL exactly when no node in the table carries it |
| HashTable.Table.HasKey | hashtable.c:320-348 | has_key is 1 exactly when lookup finds a value, and 0 otherwise |
| HashTable.Table.GetElements | hashtable.c:393-429 | get_elements lists every node, bucket by bucket and head to tail, in an array of key_count slots, and returns their number |
| HashTable.Table.GetKeys | hashtable.c:356-384 | get_keys returns the number of nodes |
| HashTable.Table.FilterBucket | hashtable.c:629-650 | one bucket of iterate keeps the nodes whose callback gave 0, in order, and the count drops by the others |
| HashTable.Table.FilterBuckets | hashtable.c:628-652 | iterate's bucket loop visits every node once in table order and filters every bucket |
| HashTable.Table.Iterate | hashtable.c:623-655 | iterate returns 0, visits every node once, removes exactly the selected nodes and lowers key_count once per removal |
| HashTable.CopyChain | hashtable.c:405-425 | the inner loop of get_elements appends the chain, in chain order, after the nodes already listed |
| HashTable.ReAddKeepsFirstValue | hashtable.c:107-212 | adding one key twice to a fresh table counts two keys, and lookup still finds the first value |
| Mba.Word | mba.c:60-75 | the word spelled by nucleotide codes: reading its letters back gives the codes |
| Mba.NucleotideString | mba.c:64-75 | the string has the letter of each code up to the first 0, and reading it back gives the codes |
| Maxima.MaxIsMax | mba.c:77-87 | the maximum is an element and is at least every element |
| Mba.FindMax | mba.c:77-87 | find_max returns an element of a[0 .. n) that is at least every one of them, and a[0] when n < 2 |
| Mba.DropOffInit | mba.c:89-126 | doff[i] becomes the sum of the column maxima from position i to the end; no other slot changes |
| Mba.Score | mba.c:128-141 | score is the sum of the weights of the nucleotides of s before its first 0 |
| Mba.Advance | mba.c:160-171 | the carry keeps the digit count and lands at a level no higher than one past where it started |
| Mba.NextVertex | mba.c:143-172 | next_vertex moves (s, i) exactly as the specification Next says |
| Mba.ByPass | mba.c:174-198 | by_pass moves (s, i) as the carry from position i - 1 |
| Mba.AdvanceCarry | mba.c:160-171 | the carry raises the last digit below k and zeroes the ones after it; the level is one past it, or 0 when every digit was k; the rest is unchanged |
| Mba.NextOnTree | mba.c:143-172 | next_vertex keeps the vertex invariant: s[0 .. i) holds codes and s[i .. len] is 0 |
| Mba.ByPassOnTree | mba.c:174-198 | by_pass keeps the vertex invariant, never raises the level, and leaves positions from the old level on untouched |
| Mba.StepScore | mba.c:128-141 | one more nucleotide adds its weight, which is at most the column's best, so score plus drop-off never grows going down |
| Mba.PruneZero | mba.c:260-263 | pruning is sound: when score plus drop-off stays under the cut-off, no word below reaches it |
| Mba.SiblingsCover | mba.c:143-172 | the children from digit e on cover every word below any child d >= e |
| Mba.BestLeaf | mba.c:89-126 | the bound is tight: when score plus drop-off reaches the cut-off, some word below reaches it |
| Mba.NextKeepsRest | mba.c:156-159 | going down to the first child leaves the counted words ahead unchanged |
| Mba.CarryRest | mba.c:160-171 | a carry leaves ahead exactly the counted words after the subtree it left, and none when it returns to the root |
| Mba.NoneCounted | mba.c:221-289 | no word reaches the cut-off exactly when the cut-off is above the best score doff[0] |
| Mba.MoveIncreases | mba.c:143-198 | every move that does not return to the root raises the digits read as a base-5 number, so the walk ends |
| Mba.Descend | mba.c:259-267 | one step above the last level keeps the vertex invariant and the count of words ahead; a move to the root leaves none ahead |
| Mba.Record | mba.c:269-281 | at a leaf the word's score is computed, and the word is counted exactly when it reaches the cut-off; the list then grows by exactly that word and score unless only counting, and stays the same otherwise |
| Mba.KeepInOrder | mba.c:276-279 | the lines after a leaf, the same or one more for this leaf, stay in increasing word order and before the next word |
| Mba.AtLeaf | mba.c:269-283 | the last-level step (score, record, next_vertex) adds the leaf's count, keeps the lines one per counted word, each reaching the cut-off and in order, and leaves ahead what came after the leaf |
| Mba.Climb | mba.c:282-283 | leaving a leaf keeps the vertex invariant and leaves ahead what came after the leaf |
| Mba.HitsCount | mba.c:221-289 | the count Sub of a prefix is the size of the set of words below it that reach the cut-off |
| Mba.HitsMembers | mba.c:221-289 | that set holds only words extending the prefix that reach the cut-off |
| Mba.InHits | mba.c:221-289 | every word extending the prefix that reaches the cut-off is in that set |
| Mba.ListedCount | mba.c:276-279 | lines in increasing word order list as many distinct words as there are lines |
| Mba.ListedAll | mba.c:269-281 | lines in order, one per counted word and each reaching the cut-off, list every word that reaches the cut-off |
| Mba.Search | mba.c:221-289 | the search counts exactly the words scoring at least the cut-off and, unless only counting, lists each of them once, in increasing order, with its score; it diverges only when the cut-off is above the best score or a word scores exactly cut-off - 1, and it always diverges in the first case |
| PwmMatrix.Matrix.Init | matrix.c:35-49 | init_matrix leaves no rows, no columns and no storage |
| PwmMatrix.RescaledMatrix.constructor | main.c:150-155 | a rescaled matrix starts on its matrix with no factors yet |
| PwmMatrix.PartnerIsComplement | matrix.c:113-119 | the rows swapped are those of complementary nucleotides, and the pairing is an involution |
| PwmMatrix.Reversed | matrix.c:94-120 | the reversal keeps the number of columns and the row count of every column |
| PwmMatrix.ReverseMatrix | matrix.c:52-121 | m_rev gets the shape of m_in and fresh storage holding the reverse-complement matrix; the status is 0 |
| PwmMatrix.ReversedFromEntries | matrix.c:99-119 | the entries reverse_matrix writes into calloc'd columns are the reverse-complement matrix |
| PwmMatrix.ReverseTwice | matrix.c:113-119 | reversing twice restores rows A, C, G and T and clears every other row |
| PwmMatrix.ReverseTwiceNucleotideOnly | matrix.c:113-119 | a matrix whose other rows are 0 is its own double reverse |
| PwmMatrix.RevCompAt | matrix.c:113-119 | position k of the reverse complement is the complement of position |w| - 1 - k |
| PwmMatrix.ReversedScoresRevComp | matrix.c:52-121 | a word scores with the reversed matrix what its reverse complement scores with the original |
| PwmMatrix.ColumnMax | matrix.c:166-174 | the maximum loop over a column gives its largest entry, and leaves max alone for an empty column |
| PwmMatrix.ShiftColumn | matrix.c:175-181 | one column is shifted by -max, its factor set to -max, and no other column or factor changes |
| PwmMatrix.RescaledFromEntries | matrix.c:146-181 | the entries rescale_matrix writes are the rescaled matrix and its factors |
| PwmMatrix.RescaleMatrix | matrix.c:124-184 | m_out gets the shape of m_in, the rescaled columns and one factor per column; the status is 0 |
| PwmMatrix.RescaledColumns | matrix.c:166-180 | every rescaled entry is at most 0, subtracting the factor gives back the original entry, and a non-empty column holds a 0 |
| CText.ToUpper | io.c:342-343 | toupper raises a lower-case letter to its capital and leaves every other character alone |
| CText.SkipSpaces | mscan_bed2sga.c:141-142 | the white-space skip stops at the first character that is not white space |
| CText.ScanInt | io.c:190-191 | one %d conversion that succeeds consumes at least one character |
| CText.ScanInts | io.c:190-195 | sscanf stores at most as many values as it has conversions |
| CText.Decimal | io.c:419-424 | printf's %d writes at least one character and does not start with white space |
| CText.NatStringValue | io.c:419-424 | the decimal digits of n read back as n |
| CText.ScanDecimal | io.c:190-191 | %d reads back what %d printed, wherever it stands, when no digit follows |
| CText.AtoiDecimal | mscan_bed2sga.c:258 | atoi, too, reads back what %d printed |
| CText.ScanIntSpace | io.c:190-191 | white space before a conversion is skipped |
| TextIo.Stream.constructor | io.c:16-91 | a stream starts at the beginning of its text |
| TextIo.Stream.Getc | io.c:52-68 | fgetc returns the next character and advances, or EOF at the end without moving |
| TextIo.Grow | io.c:70-80 | realloc to twice the size keeps the first n elements in a fresh buffer |
| TextIo.LineEnd | io.c:52-68 | the line end is the first '\n' from p, or the end of the text when there is none |
| TextIo.PutChar | io.c:70-84 | storing one character after i doubles the buffer exactly when only two places were left, so room for '\n' and NUL remains |
| TextIo.ReadLine | io.c:16-91 | readline returns the characters through the next '\n' with status 0, or NULL with status 1 at EOF, dropping a last line without '\n' |
| TextIo.LinesAreLines | io.c:16-91 | each line readline returns ends with its only '\n' |
| TextIo.LinesRebuildText | io.c:16-91 | the lines read until EOF put back together are the text up to its last, unterminated line, which has no '\n' |
| TextIo.StrLenFrom | io.c:154-160 | strlen is the index of the first NUL, or the buffer length when there is none |
| TextIo.IsHeaderSpec | io.c:153-165 | a line is a header exactly when it holds a '>' before its last character |
| TextIo.FindHeaderMark | io.c:153-165 | the header test finds a '>' exactly when the line is a header |
| TextIo.ColumnOf | io.c:181-195 | a column is 26 rows with the four numbers in rows A, C, G and T and 0 elsewhere |
| TextIo.ParseColumnsSpec | io.c:138-199 | the columns parse exactly when every data line gives four numbers, and column k comes from data line k |
| TextIo.ParsedNucleotideOnly | io.c:181-195 | a matrix read from a file has 0 in every row but A, C, G and T |
| TextIo.ToArray2 | io.c:200-208 | the column index is copied into fresh two-dimensional storage, column for column |
| TextIo.FormatError | io.c:189-195 | a line that is neither the header nor four numbers makes the whole file a format error |
| TextIo.StoreColumn | io.c:171-195 | a column is stored after those before it, doubling the index when it is full |
| TextIo.AddDataLine | io.c:171-196 | a data line is accepted exactly when it gives four numbers, and then its column follows the earlier ones |
| TextIo.TakeLine | io.c:153-196 | the first line is skipped when it is a header; any other line either extends the columns or makes the file a format error |
| TextIo.ReadColumns | io.c:138-199 | the loop returns 0 exactly when every data line gives four numbers, with one column per data line; otherwise -2 |
| TextIo.ReadMatrixFile | io.c:94-210 | on 0 the matrix has 26 rows and one column per data line; on -2 it is left as it was |
| TextIo.Normalize | io.c:336-347 | a sequence character becomes A, C, G, T or N: lower case is raised, anything else outside ACGT is N |
| TextIo.Code | io.c:361 | the stored code is the row of one of the five bases |
| TextIo.CodeRoundTrip | io.c:336-361 | GET_CHAR of a stored code gives back the normalised character |
| TextIo.ScanSeq | io.c:312-363 | the sequence loop stores one base code per kept character and stops within the text |
| TextIo.ScanSeqStop | io.c:312-335 | the sequence loop stops at the first '>' after the header, or at the end of the text |
| TextIo.ScanSeqDecode | io.c:312-363 | decoding the stored codes gives the text before the stop without '\n' and ' ', normalised |
| TextIo.ReadBases | io.c:302-366 | the loop stores the codes in a growing buffer followed by 0, with status 0 at '>' and 1 at EOF |
| TextIo.RestoredHeader | io.c:283-301 | a kept header always starts with '>' |
| TextIo.ReadFastaEntry | io.c:213-367 | -1 with no complete header line; -2 when flag is 0 and the first line lacks '>'; otherwise 0 or 1, with the header given its '>' back and the codes of the sequence stored, NUL-terminated |
| TextIo.WriteResult | io.c:370-428 | under the cut-off nothing is written and 999 is returned; at or above it the decoded word (its reverse complement on '-') is written in one result line, and the count written is returned |
| Bed2Sga.FieldEnd | mscan_bed2sga.c:239-245 | a field ends at the first character that does not belong to it |
| Bed2Sga.CopyField | mscan_bed2sga.c:239-296 | a copy loop copies the field when it fits its buffer and stops the program when it does not |
| Bed2Sga.SkipBlank | mscan_bed2sga.c:246-247 | the skip loop stops where SkipSpaces says |
| Bed2Sga.ParseBedLine | mscan_bed2sga.c:236-303 | the field loops of process_bed give the specification's tokenising of the line |
| Bed2Sga.ReadPositions | mscan_bed2sga.c:248-273 | the start and end loops take the leading digits of their fields through atoi |
| Bed2Sga.ReadTail | mscan_bed2sga.c:274-303 | the tag, score and strand loops take a word, the digits and signs of the score, and the one character of the strand |
| Bed2Sga.Strip | mscan_bed2sga.c:233-234 | one trailing '\n' is removed, and a line without one is kept whole |
| Bed2Sga.WrittenLineReadBack | mscan_bed2sga.c:236-303 | every result line write_result prints (io.c:419-424) is read back by process_bed field for field |
| Bed2Sga.CKey | mscan_bed2sga.c:158-160 | a key is the characters of the C string and its NUL, strlen + 1 bytes |
| Bed2Sga.AcLineReadBack | mscan_bed2sga.c:128-160 | a row "nb TAB ac" gives the key a BED line of chromosome "chr" + nb is looked up with, and the accession as a C string |
| Bed2Sga.ParseAcLine | mscan_bed2sga.c:128-158 | the field loops of process_ac give the specification's row or failure |
| Bed2SgaFiles.NextEnd | mscan_bed2sga.c:214 | a line runs through its '\n', or to the end of the text |
| Bed2SgaFiles.FgetsEnd | mscan_bed2sga.c:121 | fgets stops after the '\n', after n - 1 characters, or at the end of the text |
| Bed2SgaFiles.Fgets | mscan_bed2sga.c:121 | fgets returns what it read, or NULL when nothing was left |
| Bed2SgaFiles.ReadLongLine | mscan_bed2sga.c:214-232 | doubling the buffer and reading on gives the whole line through its '\n', however long it is |
| Bed2SgaFiles.BedLinesRebuildText | mscan_bed2sga.c:214-232 | the lines process_bed reads put back together are the text, and each holds a '\n' only as its last character |
| Bed2SgaFiles.LineRecord | mscan_bed2sga.c:233-318 | a line gives a record exactly when it tokenises, with the position start + 1 on '+' and end otherwise, and the accession found for its chromosome |
| Bed2SgaFiles.ConvertLine | mscan_bed2sga.c:233-318 | the loop body computes the line's record, looking the chromosome up in the table |
| Bed2SgaFiles.ConvertSpec | mscan_bed2sga.c:214-319 | every record comes from the line in the same place; the first line that fails stops the program; the lines after it are not read |
| Bed2SgaFiles.ProcessBed | mscan_bed2sga.c:169-325 | process_bed prints the records of the lines of its input, in order, until a line fails |
| Bed2SgaFiles.SkipLineAsWritten | mscan_bed2sga.c:116-118 | the skip ends just past a '\n' when there is one, and never ends when there is none |
| Bed2SgaFiles.SkipLineHangs | mscan_bed2sga.c:116-118 | an empty accession file, or one line without '\n', hangs the skip |
| Bed2SgaFiles.SkipFirstLine | mscan_bed2sga.c:116-118 | the corrected skip reads through the first '\n', or to EOF |
| Bed2SgaFiles.SkipFirstLineAgrees | mscan_bed2sga.c:116-118 | the corrected skip ends where the as-written one does, and differs only where that one never ends |
| Bed2SgaFiles.ChunksAreShort | mscan_bed2sga.c:121 | the pieces fgets returns put back together are the text, each at most LINE_SIZE - 1 characters |
| Bed2SgaFiles.AcRowsSpec | mscan_bed2sga.c:121-165 | the rows added are those of the leading pieces that parse, in order, and a failure is that of the first piece that does not |
| Bed2SgaFiles.FilledKeys | mscan_bed2sga.c:121-165 | after adding the rows, every node sits in its key's bucket and the table holds exactly the rows' keys |
| Bed2SgaFiles.FilledFinds | mscan_bed2sga.c:121-165 | after adding the rows, a lookup finds a value exactly for the keys of the rows |
| Bed2SgaFiles.ProcessAc | mscan_bed2sga.c:80-167 | process_ac skips the first line, makes a copying table and adds the rows of the pieces fgets returns; the table's buckets and key_count are those of adding exactly these rows in order, and a lookup finds a value exactly for the rows' keys |

## Left out

- Allocation failures: every `calloc`, `malloc` and `realloc` succeeds in the model. The
  -1/-2 allocation returns of `hash_table_new`, `resize`, `reverse_matrix`,
  `rescale_matrix`, `readline` and `read_fasta_entry` are not modelled, and neither is the
  ambiguous return of 1 from `get_elements`.
- Memory release: `hash_table_delete`, `free_matrix`, `free_matrix_rescaled`, the freeing in
  `hash_table_element_delete` and the leaks of `resize` are not modelled. Ownership per mode
  is modelled as a pair of flags (HashTable.OwnershipAgrees).
- `hash_table_element_new`, `print_matrix`, `read_profile` and every `main` are left out,
  because they are allocation, printing and command-line plumbing.
- Stream errors: `ferror` and the -3 read-error returns of `read_fasta_entry` are left out.
  The model has only the end of the text.
- `read_fasta_entry`'s -3 for a header over its buffer is not modelled, because the model's
  `readline` has no length limit.
- The text holds no NUL character (except where a contract says otherwise). Streams are whole
  strings, and output is returned as strings and records instead of being printed.
- `sscanf` is a parameter of the matrix reader (a function from a line to the values it
  stores). The model requires exactly four of them. CText.ScanInts is a model of one such
  conversion, not the C library itself.
- `get_compl_seq` is a parameter of TextIo.WriteResult, because its source is not part of
  this model.
- `atoi`, `%d` and `%ld` are modelled on unbounded integers; overflow of `int` and
  `unsigned long` is not modelled.
- The debug output, the `fopen` path building of `process_ac` and the `sort` check of
  `process_bed` are left out, because they are I/O and external processes.
- The debug lookup after each add in `process_ac` is left out, since it only prints.
- HashTable.Table.Remove: requires `key_count > 0`, because the shrink test divides by
  `key_count` (hashtable.c:225), which faults on an empty table.
- HashTable.Table.Resize: requires the node count to stay within the load bound of the new
  size. Every resize the table itself makes meets this; a resize to fewer buckets would make
  the re-adds grow the table again, which is not modelled.
- HashTable.Table.Resize: the -2 path that restores `store_house` after a failed allocation
  is not modelled.
- HashTable.Table.GetKeys: returns only the count. The keys array the C code fills is
  assigned to its parameter locally (hashtable.c:360), so it never reaches the caller.
- HashTable.Table.Iterate: the callback is a pure function of key and value. Its `user`
  argument and any side effect are not modelled.
- Murmur over bytes: keys are `seq<bv8>`. The length word is taken modulo 2^32, as the
  32-bit `h1 ^= len` does.
- Mba.Search: the C loop repeats forever when the walk returns to the root with `minScore`
  still `cutOff - 1`. The model returns the outcome `Diverges` there, with the conditions
  under which that happens proved.
- PwmMatrix.WordScore: counts a code outside its column as 0. Callers only score nucleotide
  codes.
- Bed2Sga.CopyField: a field exactly as long as its buffer leaves the C buffer without its
  NUL (undefined behaviour). The model reports this as the failure `Unterminated` instead of
  reading past the buffer.
- Bed2Sga.Failure: the `fclose` before some `exit(1)` calls is not modelled; every failure
  stops the program.
- Bed2Sga.Byte: assumes every character of the text is a byte (below 256); a larger
  character would wrap modulo 256. C's signed `char` is not modelled either: for bytes of
  0x80 and above, `isspace`, `islower` and `CHAR_HASH` see a negative value in C, while the
  model treats every byte as non-negative.
- Bed2SgaFiles.SgaRecord: leaves out two columns that `printf` writes as fixed text: the
  `Feature` name (second column) and the constant `1` between strand and tag. A record
  with `ac == None` stands for `printf("%s", NULL)` on a chromosome missing from the table,
  which is undefined behaviour in C; the model does not say what gets printed.

## Findings

| source | as written | input that shows it | evidently intended | confidence | as-written member | corrected member |
|---|---|---|---|---|---|---|
| hashtable.c:183-207 | `hash_table_add` compares only the nodes after the head, so re-adding the head's key appends a duplicate node | add (k, v1), then add (k, v2), to a fresh table: key_count is 2 and lookup(k) returns v1 | the head is compared too, so the second add replaces v1 by v2 | not executed | Chains.HeadDuplicate | Chains.IntendedAddCorrect |
| hashtable.c:250-257 | `prev == store_house[hash]` also holds when the match is the second node, and the bucket head is then set past the match, losing the head | a bucket holding [a, b]; remove(b.key) empties the bucket, so a.key is lost | only the matching node is unlinked | not executed | Chains.RemoveDropsHead | Chains.IntendedRemoveCorrect |
| mscan_bed2sga.c:116-118 | `do c = fgetc(input); while (c != '\n')` never ends at EOF, since EOF is not '\n' | an empty accession file, or the single line "chr_nb ac" without '\n' | stop at '\n' or EOF | not executed | Bed2SgaFiles.SkipLineAsWritten | Bed2SgaFiles.SkipFirstLine |

The hash table class keeps the chain operations of the first two rows as written
(`Chains.ChainAdd` and `Chains.ChainRemove`), because those are what `hashtable.c` does and
what its callers see. The corrected definitions `Chains.ChainAddIntended` and
`Chains.ChainRemoveIntended` are stated next to them, with their intended properties proved.
`Bed2SgaFiles.ProcessAc` uses the corrected skip.
