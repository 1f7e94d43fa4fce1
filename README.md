# charon core in Dafny

A verified model of the core of the charon C++ library. Its centre is:

- the delimiter-driven stream tokenizer (`stream_parser`);
- the two document stacks built on the tokenizer:
  - XML: attributes, text, elements with their reader, writer and pre-order iterator with erase, and the document with its path resolver and element search;
  - JSON: primitives, lists, objects with their reader and writer, and the document tree.

The model also covers the building blocks and utilities these rely on, or that live beside them:

- the separately chained hash map, the doubly linked list, the stack and the red-black tree;
- `nullable`;
- the string utilities (case mapping, whitespace stripping, split, reverse, checked decimal conversion);
- the character classes;
- IPv4/IPv6 addresses;
- the date/time formatter and parser;
- the SFTP file-attribute strings.

## How it is built

Each C++ header has one Dafny module, in the form the C++ code takes:

- **Classes that update fields in place are Dafny classes.** These are the stream, the parser, the hash map, the linked list and its nodes, the stack, the tree, the iterators, `nullable`, the XML element and the JSON object and list.
- **The methods that change them carry the source's loops.** Each method is proved against a specification function of the old state. Its `ensures` clauses state the whole new state.
- **The pure parts are datatypes and functions with lemmas.** These are node rendering, attribute scanning, path resolution, the red-black tree's order and colour rules, the address and date text, and the conversions.
- **Pointer trees are value trees.**
  - The XML element tree, the JSON value tree and the red-black tree are value trees.
  - Iterators and node handles are paths or zippers into those trees.
  - The stack of list iterators held by the XML iterator becomes a list of frames of paths.
- **Undefined behaviour becomes a `faulted` flag.** Where the C++ code dereferences a null or past-the-end iterator, the model sets the flag instead of continuing.
- **Each property is a lemma.** The properties cover:
  - round trips: decimal text, dotted quads, date text, XML attribute and element text, JSON rendering and reading back;
  - invariants kept: sorted order and the red-black rules, chain membership and size, the linked list's links and per-node owners;
  - exact results: the pre-order walk, `at(path)`, `find_element`.

Where the code differs from what its comments and documentation promise, the model follows the code. Exhibiting lemmas then show the difference on concrete inputs. See "## Findings" and "## Defects modelled as written".

## Model

| member | source | states |
|---|---|---|
| Stacks.Stack.constructor | lib/includes/data/adt/stack.h:71-73 | a new stack has no entries and size 0 |
| Stacks.Stack.Copy | lib/includes/data/adt/stack.h:75-90 | the copy holds rhs's entries in the same order, with the same size |
| Stacks.Stack.Size | lib/includes/data/adt/stack.h:132-135 | size() is the number of entries |
| Stacks.Stack.Push | lib/includes/data/adt/stack.h:125-130 | t becomes the top, the earlier entries follow unchanged, size grows by one |
| Stacks.Stack.Pop | lib/includes/data/adt/stack.h:110-123 | on an empty stack: out_of_range, nothing changed; otherwise the top value is returned and removed, size shrinks by one |
| Stacks.Stack.Assign | lib/includes/data/adt/stack.h:92-98 | copy-and-swap: the target holds rhs's entries, rhs keeps its own |
| Stacks.PushThenPop | lib/includes/data/adt/stack.h:110-130 | a pop right after a push returns the pushed value and restores the stack |
| Stacks.LastInFirstOut | lib/includes/data/adt/stack.h:110-130 | after pushing a then b, pop gives b, then a |
| Stacks.CopyIsIndependent | lib/includes/data/adt/stack.h:75-90 | a push onto a copy leaves the original unchanged |
| Nullables.Nullable.Empty | lib/includes/core/nullable.h:17-19 | a default nullable holds nothing |
| Nullables.Nullable.Of | lib/includes/core/nullable.h:21-23 | nullable(t) holds t |
| Nullables.Nullable.Copy | lib/includes/core/nullable.h:25-27 | a copy holds what the source holds |
| Nullables.Nullable.Move | lib/includes/core/nullable.h:29-33 | the move takes the value and leaves the source empty |
| Nullables.Nullable.HasValue | lib/includes/core/nullable.h:51-59 | has_value (and operator bool) exactly when a value is held |
| Nullables.Nullable.Get | lib/includes/core/nullable.h:61-67 | get gives the held value, and the exception exactly when nothing is held |
| Nullables.Nullable.TryGet | lib/includes/core/nullable.h:69-76 | try_get reports has_value and overwrites its out-parameter only when a value is held |
| Nullables.Nullable.Swap | lib/includes/core/nullable.h:35-38 | the two held values are exchanged |
| Nullables.Nullable.Assign | lib/includes/core/nullable.h:41-49 | the target holds what the right-hand side holds; the right-hand side is unchanged |
| Nullables.Nullable.Set | lib/includes/core/nullable.h:78-82 | after set(t), get gives t |
| SftpFile.PermissionsStr | src/sftp_file.cpp:246-263 | the permission string has ten characters |
| SftpFile.PermissionsAt | src/sftp_file.cpp:246-263 | character i shows the letter of permission bit i, or '-' when the bit is clear |
| SftpFile.PermissionsLayout | src/sftp_file.cpp:246-263 | 'd' exactly when the S_IFDIR bit is set (so also for block devices and sockets, whose type bits include it), then r, w, x or '-' for owner, group and other |
| SftpFile.PermissionsRoundTrip | src/sftp_file.cpp:246-263 | reading the string back gives exactly the nine permission bits of the mode |
| SftpFile.TypeStr | src/sftp_file.cpp:167-182 | "file" iff the regular bit is set; "directory" iff only the directory bit decides; "unknown" iff no type bit is set |
| SftpFile.IsDirectory | src/sftp_file.cpp:298-301 | true iff the type has the directory bit |
| SftpFile.IsFile | src/sftp_file.cpp:303-307 | true iff the type has the regular bit |
| SftpFile.FileTestsAgree | src/sftp_file.cpp:167-182 | is_file agrees with get_type_str answering "file", and is_directory without is_file with "directory" |
| SftpFile.TypeMasksOverlap | src/sftp_file.cpp:167-182 | (defect) a symbolic link (3) reports "file" and is both a file and a directory |
| Chars.CaseRoundTrip | lib/includes/core/text/string_util.h:31-55 | toupper and tolower undo each other on letters, neither leaves a letter of the case it converts from, and both keep the alphanumeric class |
| StringUtil.ToUpperString | lib/includes/core/text/string_util.h:31-42 | to_upper has the input's length and toupper of each character at the same position |
| StringUtil.ToLowerString | lib/includes/core/text/string_util.h:44-55 | to_lower has the input's length and tolower of each character at the same position |
| StringUtil.StripWsLoop | lib/includes/core/text/string_util.h:57-68 | the copy_if loop yields exactly the non-whitespace characters in order |
| StringUtil.StripWsSound | lib/includes/core/text/string_util.h:57-68 | no whitespace survives, a string without whitespace is unchanged, the result is never longer |
| StringUtil.StripWsAppend | lib/includes/core/text/string_util.h:57-68 | stripping distributes over concatenation |
| StringUtil.StripWsInterior | lib/includes/core/text/string_util.h:57-68 | whitespace is removed anywhere in the string, not only at its ends |
| StringUtil.SplitLoop | lib/includes/core/text/string_util.h:73-96 | the beg/find loop returns the non-empty runs between delimiters, in order |
| StringUtil.SplitPiecesNonEmpty | lib/includes/core/text/string_util.h:73-96 | every piece is non-empty and holds no delimiter |
| StringUtil.SplitConcat | lib/includes/core/text/string_util.h:73-96 | the pieces concatenated give the input with its delimiters removed |
| StringUtil.SplitNoDelim | lib/includes/core/text/string_util.h:73-96 | a string without the delimiter is one piece, or none when empty |
| StringUtil.SplitAtDelim | lib/includes/core/text/string_util.h:73-96 | pieces never merge across a delimiter: split(a + delim + b) is split(a) followed by split(b) |
| StringUtil.ReverseLoop | lib/includes/core/text/string_util.h:98-105 | the rbegin..rend loop yields the characters in reverse order |
| StringUtil.ReverseAt | lib/includes/core/text/string_util.h:98-105 | the reversal has the same length, with position i holding character n-1-i |
| StringUtil.ReverseInvolution | lib/includes/core/text/string_util.h:98-105 | reversing twice gives the input back |
| StringUtil.StandardTypesWellFormed | lib/includes/core/text/string_util.h:108-156 | the 8-, 16-, 32- and 64-bit unsigned types have maxima 2^w-1 and digits10 with 10^digits10 <= max < 10^(digits10+1) |
| StringUtil.StringToNumeric | lib/includes/core/text/string_util.h:108-156 | the right-to-left loop with T arithmetic and both overflow tests gives: out_of_range for a length outside 1..digits10+1, range_error for a non-digit, overflow_error above T's maximum, otherwise the decimal value |
| StringUtil.OverflowAtTop | lib/includes/core/text/string_util.h:131-138 | the first overflow test can only fire on the leading digit of a full-width string, and then the value exceeds T's maximum |
| StringUtil.WrapAtTop | lib/includes/core/text/string_util.h:140-148 | the wrap-around test fires only on the leading digit, and exactly when the value exceeds T's maximum |
| StringUtil.AccumulateDigit | lib/includes/core/text/string_util.h:140-149 | without wrap-around the running sum is the value of the suffix scanned so far |
| StringUtil.DecimalValueSnoc | lib/includes/core/text/string_util.h:108-156 | appending a digit multiplies the value by ten and adds the digit |
| StringUtil.DecimalCorrect | lib/includes/core/text/string_util.h:159-173 | the digits denote n, have no leading zero except for "0", and are "0" exactly for 0 |
| StringUtil.DecimalLength | lib/includes/core/text/string_util.h:159-173 | at most k digits exactly for the values below 10^k |
| StringUtil.NumericToString | lib/includes/core/text/string_util.h:159-173 | the do/while loop of t % 10 digits, then reverse, gives the decimal digits of n |
| StringUtil.NumericRoundTrip | lib/includes/core/text/string_util.h:108-173 | string_to_numeric of numeric_to_string(n) gives back n for every n within T's range |
| StreamParsing.ReadSpec | lib/includes/core/io/stream_parser.h:39 | `is >> c` with skipws unset gives the next character, or fails the stream at end of input |
| StreamParsing.PutbackSpec | lib/includes/core/io/stream_parser.h:58-59 | putback puts c in front of the input, and is refused on a failed stream |
| StreamParsing.CharStream.Get | lib/includes/core/io/stream_parser.h:39 | the stream read follows ReadSpec |
| StreamParsing.CharStream.Putback | lib/includes/core/io/stream_parser.h:58-59 | the stream putback follows PutbackSpec |
| StreamParsing.StreamParser.constructor | lib/includes/core/io/stream_parser.h:120-130 | no delimiters, every switch off, lastDelim 0 |
| StreamParsing.StreamParser.WithOptions | lib/includes/core/io/stream_parser.h:132-150 | the given delimiters and switches, lastDelim 0 |
| StreamParsing.StreamParser.SetDelims | lib/includes/core/io/stream_parser.h:169-173 | only the delimiter set changes |
| StreamParsing.StreamParser.SetMatchAll | lib/includes/core/io/stream_parser.h:175-178 | only the match-all switch changes |
| StreamParsing.StreamParser.SetKeepDelims | lib/includes/core/io/stream_parser.h:180-183 | only the keep-delims switch changes |
| StreamParsing.StreamParser.SkipWs | lib/includes/core/io/stream_parser.h:267-271 | only the skip-whitespace switch changes, to on |
| StreamParsing.StreamParser.NoSkipWs | lib/includes/core/io/stream_parser.h:273-277 | only the skip-whitespace switch changes, to off |
| StreamParsing.StreamParser.GetLastDelim | lib/includes/core/io/stream_parser.h:185-188 | the recorded last delimiter |
| StreamParsing.StreamParser.AnyLoopRun | lib/includes/core/io/stream_parser.h:39-56 | the while loop reads up to and including the first delimiter, records it, and skips leading whitespace when asked |
| StreamParsing.StreamParser.MatchAny | lib/includes/core/io/stream_parser.h:33-62 | match_any's token, settings and stream are those of MatchAnyStep |
| StreamParsing.MatchAnyContract | lib/includes/core/io/stream_parser.h:33-62 | the token is the text before the first delimiter (less leading whitespace when skipping) and holds no delimiter; on a hit the delimiter is recorded and stays in the stream exactly with keep-delims; at end of input the stream fails and lastDelim keeps its value |
| StreamParsing.DropLeadingSpaceSpec | lib/includes/core/io/stream_parser.h:47-53 | only a leading run of whitespace is dropped; what is kept is a suffix starting with non-whitespace |
| StreamParsing.DropLeadingSpaceKeepsInner | lib/includes/core/io/stream_parser.h:47-53 | whitespace after the first non-whitespace character is kept |
| StreamParsing.ScanAnyClosedForm | lib/includes/core/io/stream_parser.h:39-56 | the loop uses the characters through the first delimiter and hits; without a delimiter it reads everything and misses |
| StreamParsing.AnyLoopScan | lib/includes/core/io/stream_parser.h:39-56 | the imperative loop computes the recursive scan of the text |
| StreamParsing.StreamParser.ReadDelimiter | lib/includes/core/io/stream_parser.h:89-102 | the inner for loop compares the following characters with the delimiter and stops at the first mismatch or at end of input; on a mismatch the buffer is cleared |
| StreamParsing.StreamParser.FlushBuffer | lib/includes/core/io/stream_parser.h:98-99 | the token gains the buffer read as a C string, then the buffer is zeroed |
| StreamParsing.StreamParser.PutbackAll | lib/includes/core/io/stream_parser.h:106-108 | the characters are put back last first, so the stream delivers them next in order; refused on a failed stream |
| StreamParsing.StreamParser.TryDelimiter | lib/includes/core/io/stream_parser.h:87-111 | one attempt at the delimiter's first character: a match ends the loop, a mismatch appends the attempt to the token and continues after it |
| StreamParsing.StreamParser.MatchAll | lib/includes/core/io/stream_parser.h:64-116 | match_all's token, settings and stream are those of MatchAllStep |
| StreamParsing.AllLoopScan | lib/includes/core/io/stream_parser.h:73-113 | the imperative loop computes the recursive scan of the text |
| StreamParsing.MatchLenPrefix | lib/includes/core/io/stream_parser.h:92-102 | the inner loop stops one character past the longest common prefix of text and delimiter |
| StreamParsing.ScanAllNoInputLost | lib/includes/core/io/stream_parser.h:87-113 | no input is lost: on a full match the text read is the token followed by the delimiter; otherwise the input is the token followed by a proper prefix of the delimiter |
| StreamParsing.OverlapMissed | lib/includes/core/io/stream_parser.h:92-101 | the mismatching character is never retried as a start, so "--->" contains no "-->" for match_all |
| StreamParsing.ScanAllEofInDelimiter | lib/includes/core/io/stream_parser.h:92-110 | end of input part-way through the delimiter ends the token, and the partial delimiter is dropped |
| StreamParsing.MatchAllKeepsDelimiter | lib/includes/core/io/stream_parser.h:104-109 | after a full match with keep-delims the whole delimiter is next in the stream, in order, and the settings, lastDelim included, are unchanged |
| StreamParsing.StreamParser.NextMatch | lib/includes/core/io/stream_parser.h:190-196 | next_match is match_all or match_any by the match-all switch |
| StreamParsing.NextMatchShrinks | lib/includes/core/io/stream_parser.h:190-196 | a read never lengthens the input left; without keep-delims a read that leaves the stream good has consumed something |
| StreamParsing.NextWordStep | lib/includes/core/io/stream_parser.h:198-206 | next_word gives the leading run of alphanumerics; the character that stops it is consumed; at end of input the stream fails |
| StreamParsing.StreamParser.NextWord | lib/includes/core/io/stream_parser.h:198-206 | the while loop follows NextWordStep |
| StreamParsing.DiscardContract | lib/includes/core/io/stream_parser.h:208-231 | discard replaces the delimiter set, consumes at most cnt characters, stops at the first delimiter, records it and keeps it in the stream exactly with keep; it fails only when the input ends first |
| StreamParsing.StreamParser.DiscardScan | lib/includes/core/io/stream_parser.h:218-230 | the for loop reads at most cnt characters and reports whether a delimiter stopped it |
| StreamParsing.StreamParser.Discard | lib/includes/core/io/stream_parser.h:208-231 | discard's settings and stream are those of DiscardStep |
| StreamParsing.StreamParser.DiscardThrough | lib/includes/core/io/stream_parser.h:233-241 | discard(delims, keep) is discard with the largest streamsize as count |
| StreamParsing.PeekStep | lib/includes/core/io/stream_parser.h:243-259 | peek(n) gives the next n characters and leaves the stream as it was; with fewer left, it gives what is there and the stream stays failed |
| StreamParsing.StreamParser.Peek | lib/includes/core/io/stream_parser.h:243-259 | the read loop and the reverse putback loop follow PeekStep |
| HashMaps.SlotIndex | lib/includes/data/adt/hash_map_o.h:131 | the slot is below capacity: the int hash converted to size_t (modulo 2^64) and reduced modulo capacity |
| HashMaps.KeyPos | lib/includes/data/adt/hash_map_o.h:140-146 | the position of the first node with key k in the chain, or the chain's length when none has it |
| HashMaps.TableInsertLookup | lib/includes/data/adt/hash_map_o.h:129-155 | insert succeeds exactly when k is absent; afterwards k maps to v if it was absent and keeps its value otherwise; every other key keeps its value |
| HashMaps.TableInsertSize | lib/includes/data/adt/hash_map_o.h:129-155 | the node count grows by one exactly when insert succeeds |
| HashMaps.TableInsertWellHashed | lib/includes/data/adt/hash_map_o.h:129-155 | every node stays in the slot of its hash and no chain repeats a key |
| HashMaps.HashMap.constructor | lib/includes/data/adt/hash_map_o.h:204-209 | capacity c, every slot empty |
| HashMaps.HashMap.Copy | lib/includes/data/adt/hash_map_o.h:211-218 | same capacity, size and hash, and the same chains slot by slot |
| HashMaps.HashMap.CopyNodes | lib/includes/data/adt/hash_map_o.h:176-200 | each slot below both capacities gets rhs's chain in order; other slots are untouched |
| HashMaps.HashMap.DeleteNodes | lib/includes/data/adt/hash_map_o.h:157-174 | every slot is emptied |
| HashMaps.HashMap.Assign | lib/includes/data/adt/hash_map_o.h:220-241 | the target takes rhs's capacity, size, hash and chains |
| HashMaps.HashMap.Clear | lib/includes/data/adt/hash_map_o.h:243-247 | no key is found afterwards, size is 0, capacity is unchanged |
| HashMaps.HashMap.Insert | lib/includes/data/adt/hash_map_o.h:249-253 | refused, with nothing changed, when k is in its chain; otherwise the new node heads k's chain and size grows by one; capacity never changes |
| HashMaps.HashMap.Exists | lib/includes/data/adt/hash_map_o.h:255-276 | true iff k's slot chain has a node with key k |
| HashMaps.LookupIffIterated | lib/includes/data/adt/hash_map_o.h:255-276 | exists(k) iff some node met by iteration has key k |
| HashMaps.HashMap.Find | lib/includes/data/adt/hash_map_o.h:378-398 | the iterator stands on the node with key k in k's chain, or is null when k is absent; its slot scan starts at k's slot |
| HashMaps.HashMap.Get | lib/includes/data/adt/hash_map_o.h:400-403 | operator[] gives the value stored for k |
| HashMaps.HashMap.Begin | lib/includes/data/adt/hash_map_o.h:405-420 | begin stands on the head of the first non-empty slot, or is null when all are empty |
| HashMaps.HashMap.End | lib/includes/data/adt/hash_map_o.h:439-445 | end is null with its slot scan finished |
| HashMaps.HashMap.Size | lib/includes/data/adt/hash_map_o.h:455-458 | size() is the number of nodes in the table |
| HashMaps.MapIterator.Value | lib/includes/data/adt/hash_map_o.h:329-332 | operator* is the current node |
| HashMaps.MapIterator.Next | lib/includes/data/adt/hash_map_o.h:315-376 | ++ moves to the next node of the chain, else to the head of the next non-empty slot, else to null |
| HashMaps.MapIterator.Equals | lib/includes/data/adt/hash_map_o.h:339-347 | iterators are equal when they stand on the same node, so comparing with end() is true exactly when the iterator stands on no node |
| HashMaps.WalkStep | lib/includes/data/adt/hash_map_o.h:315-376 | one ++ adds the current node to those visited and moves forward |
| HashMaps.HashMap.Walk | lib/includes/data/adt/hash_map_o.h:351-420 | begin to end visits every node exactly once, slot by slot and in chain order, size() nodes in all |
| HashMaps.IteratedKeysDistinct | lib/includes/data/adt/hash_map_o.h:129-155 | in a table built by insert, iteration meets every key at most once |
| LinkedLists.ListNode.constructor | lib/includes/data/adt/linked_list.h:60-65 | a new node holds t, unlinked, with no owner |
| LinkedLists.ListNode.Copy | lib/includes/data/adt/linked_list.h:44-49 | the node copy has the value and all three links of the original |
| LinkedLists.LinkedList.constructor | lib/includes/data/adt/linked_list.h:206-210 | a new list is empty |
| LinkedLists.LinkedList.Size | lib/includes/data/adt/linked_list.h:320-323 | size() is the number of values in the chain |
| LinkedLists.LinkedList.Begin | lib/includes/data/adt/linked_list.h:325-333 | begin() is null (equal to end()) exactly for an empty list, and otherwise the head node, holding the first value |
| LinkedLists.LinkedList.PushFront | lib/includes/data/adt/linked_list.h:246-260 | a new node owned by this list becomes the first; the values are t then the old ones; size grows by one |
| LinkedLists.LinkedList.PushBack | lib/includes/data/adt/linked_list.h:262-276 | a new node owned by this list becomes the last; the values are the old ones then t; size grows by one |
| LinkedLists.LinkedList.Values | lib/includes/data/adt/linked_list.h:141-145 | following next_ from begin() to the null end() visits the values in order |
| LinkedLists.LinkedList.Erase | lib/includes/data/adt/linked_list.h:292-309 | through a node owned by this list, exactly that node is unlinked, head_ or tail_ moving when it was first or last, and the others keep their order; through null or a node owned elsewhere nothing changes |
| LinkedLists.LinkedList.EraseAt | lib/includes/data/adt/linked_list.h:294-308 | the node at position k and its value are removed, the chain stays linked |
| LinkedLists.Unlink | lib/includes/data/adt/linked_list.h:294-308 | once the node at k is bypassed, the remaining nodes form a complete chain |
| LinkedLists.LinkedList.Insert | lib/includes/data/adt/linked_list.h:278-290 | through a node owned by this list, a new unowned node holding t is linked just before it; inside the list the values gain t at that position; before the head, head_ stays put, the new node is unreachable from begin() and size_ no longer matches; through null or a node owned elsewhere nothing changes |
| LinkedLists.LinkedList.InsertAt | lib/includes/data/adt/linked_list.h:282-289 | the splice of a new node before the node at position k |
| LinkedLists.LinkBefore | lib/includes/data/adt/linked_list.h:282-289 | once the new node is spliced in before the node at k, the chain holds it at k |
| LinkedLists.LinkedList.Clear | lib/includes/data/adt/linked_list.h:311-318 | only the head node is erased (none when it is owned elsewhere), because the erased head has no predecessor |
| LinkedLists.CopyList | lib/includes/data/adt/linked_list.h:212-230 | a copy has the same values in the same order, in fresh nodes; its head node still records the source list as owner, the later nodes the copy |
| LinkedLists.CopyNodes | lib/includes/data/adt/linked_list.h:219-228 | the copy loop links fresh copies of the source's nodes in order |
| LinkedLists.LinkedList.Assign | lib/includes/data/adt/linked_list.h:232-239 | copy-and-swap: the target holds rhs's values in fresh nodes, none of the later ones owned by the target |
| LinkedLists.LinkedList.Swap | lib/includes/data/adt/linked_list.h:235-237 | head_, tail_ and size_ and the chains they hold are exchanged |
| RedBlackTrees.Search | lib/includes/data/adt/red_black_tree.h:164-178 | search_internal returns a node holding exactly key k, found at a real position of the tree being searched |
| RedBlackTrees.SearchComplete | lib/includes/data/adt/red_black_tree.h:164-178 | in an ordered tree the search comes back null if and only if no item has key k |
| RedBlackTrees.RedBlackTree.Find | lib/includes/data/adt/red_black_tree.h:359-362 | find returns a node of this tree whose key is k, or null |
| RedBlackTrees.RedBlackTree.FindComplete | lib/includes/data/adt/red_black_tree.h:359-362 | find returns null exactly for the keys the tree does not hold (both directions) |
| RedBlackTrees.RotateLeft | lib/includes/data/adt/red_black_tree.h:196-216 | rotate_left keeps the in-order items; the right child becomes the subtree root with the old root as its left child, which takes the old right child's left subtree; without a right child nothing changes |
| RedBlackTrees.RotateRight | lib/includes/data/adt/red_black_tree.h:218-239 | the mirror image of rotate_left, with the same in-order preservation |
| RedBlackTrees.RotateRoundTrip | lib/includes/data/adt/red_black_tree.h:196-239 | rotate_right undoes rotate_left at the same node |
| RedBlackTrees.Descend | lib/includes/data/adt/red_black_tree.h:180-194 | insert_internal's descent ends at a null link of the same tree |
| RedBlackTrees.DescendSplit | lib/includes/data/adt/red_black_tree.h:180-194 | every item before the insertion point has key at most k and every item after it a key above k, so equal keys go after existing ones |
| RedBlackTrees.InsertPlacement | lib/includes/data/adt/red_black_tree.h:364-368 | the new node hung at the descent's end gives the sorted insertion of (k, v); the items stay ordered and grow by one |
| RedBlackTrees.InsertSortedPerm | lib/includes/data/adt/red_black_tree.h:364-434 | the sorted insertion adds exactly the new item: the multiset of items grows by it and by nothing else |
| RedBlackTrees.SortedPlacement | lib/includes/data/adt/red_black_tree.h:180-194 | placing an item between the items at most its key and those above it is the sorted insertion and stays ordered |
| RedBlackTrees.FixUpStart | lib/includes/data/adt/red_black_tree.h:366-371 | a red leaf hung on a null link of a red-black tree satisfies the fix-up invariant: only it may have a red parent |
| RedBlackTrees.FixUpLeftSide | lib/includes/data/adt/red_black_tree.h:381-403 | one pass with the parent on the grandparent's left (recolour on a red uncle, else one or two rotations) keeps the in-order items, shortens the path to the root and keeps the fix-up invariant |
| RedBlackTrees.FixUpRightSide | lib/includes/data/adt/red_black_tree.h:405-427 | the mirror image for a parent on the grandparent's right |
| RedBlackTrees.FixUpLoop | lib/includes/data/adt/red_black_tree.h:372-430 | the loop keeps the in-order items and the invariant, and stops at the root, under a black parent, or below a parent that has no parent |
| RedBlackTrees.FixUpEnd | lib/includes/data/adt/red_black_tree.h:432 | when the loop stops, painting the root black gives a red-black tree: no red node has a red child and every path has the same number of black nodes |
| RedBlackTrees.RedBlackTree.constructor | lib/includes/data/adt/red_black_tree.h:348-351 | a new tree has no root, count 0, and is red-black |
| RedBlackTrees.RedBlackTree.Insert | lib/includes/data/adt/red_black_tree.h:364-434 | the items become the sorted insertion of (k, v) after every equal key; count grows by one; the root is black; a red-black tree stays red-black; when the new node lands at the root or under a black parent, the fix-up loop does nothing and the red leaf is only hung in place |
| RedBlackTrees.SpliceOut | lib/includes/data/adt/red_black_tree.h:436-475 | unlinking a node (by its only child, or by its successor's key and value with the successor replaced by its right child) leaves exactly the items of its two subtrees, in order, and reports whether the deleted node had a child |
| RedBlackTrees.RemoveInOrder | lib/includes/data/adt/red_black_tree.h:436-475 | splicing a node out of its place drops exactly its own item from the tree's in-order sequence |
| RedBlackTrees.OrderedRemove | lib/includes/data/adt/red_black_tree.h:436-475 | dropping one item keeps the keys in order |
| RedBlackTrees.RedBlackTree.Remove | lib/includes/data/adt/red_black_tree.h:436-475 | removing a node of the tree drops exactly its item from the links at its in-order position and decrements count; the tree stays ordered; a null node changes nothing; the tree is marked dangling exactly when the deleted node had a child, which `delete del` frees while it stays linked (lines 50-57 and 472) |
| RedBlackTrees.RemoveFreesSubstitute | lib/includes/data/adt/red_black_tree.h:50-57 | insert 2, insert 1, then remove(find(2)): the root is now node 1, which the destructor of node 2 has freed, so the tree is dangling |
| RedBlackTrees.Leftmost | lib/includes/data/adt/red_black_tree.h:256-269 | find_successor's walk ends at a node of the same tree with no left child |
| RedBlackTrees.ClimbRight | lib/includes/data/adt/red_black_tree.h:137-150 | next()'s climb ends at an ancestor of the same tree, or null past the root |
| RedBlackTrees.Successor | lib/includes/data/adt/red_black_tree.h:125-153 | next() returns a node of the same tree, or null |
| RedBlackTrees.SuccessorBefore | lib/includes/data/adt/red_black_tree.h:125-153 | one step moves past exactly the current node: the items before the successor are the items before the current node followed by it, and null comes only after the last item |
| RedBlackTrees.BeforeIsPrefix | lib/includes/data/adt/red_black_tree.h:125-153 | the current node's item sits in the in-order sequence right after the items before it |
| RedBlackTrees.TreeIterator.Value | lib/includes/data/adt/red_black_tree.h:103-106 | dereferencing gives the current node's value, paired with its key |
| RedBlackTrees.TreeIterator.Next | lib/includes/data/adt/red_black_tree.h:89-94 | operator++ moves the iterator to the in-order successor |
| RedBlackTrees.TreeIterator.Equals | lib/includes/data/adt/red_black_tree.h:113-121 | the end iterator equals exactly the iterators on no node, and two equal iterators on a node dereference to the same key and value |
| RedBlackTrees.RedBlackTree.Begin | lib/includes/data/adt/red_black_tree.h:477-484 | begin() is null for an empty tree and otherwise the leftmost node |
| RedBlackTrees.RedBlackTree.End | lib/includes/data/adt/red_black_tree.h:486-489 | end() is the null iterator |
| RedBlackTrees.RedBlackTree.Walk | lib/includes/data/adt/red_black_tree.h:477-489 | a loop from begin() to end() yields exactly the tree's items in order, count of them, with keys never decreasing |
| Ip.Octet | lib/includes/net/tcp/ip.h:49 | (octets >> 8*cnt) & 0xff is a byte value |
| Ip.OctetOfPack | lib/includes/net/tcp/ip.h:185-195 | four byte values packed with octet << 8*cnt fit 32 bits, and shifting back by 8*cnt reads field 3 - cnt |
| Ip.PackOfOctets | lib/includes/net/tcp/ip.h:43-53 | a 32-bit word is the packing of its own four octets, most significant first |
| Ip.EmittedAll | lib/includes/net/tcp/ip.h:41-53 | after the four rounds of the countdown the text is the dotted quad followed by dots[0] |
| Ip.V4TextNul | lib/includes/net/tcp/ip.h:41-54 | to_string puts character 0 between the last octet and ':' |
| Ip.IntendedV4TextParses | lib/includes/net/tcp/ip.h:36-59 | the intended text has no NUL, its first ':' follows the dotted quad, and that quad parses back to the address with make_v4 |
| Ip.IpV4.constructor | lib/includes/net/tcp/ip.h:28-30 | the record holds the given port and octets |
| Ip.IpV4.ToString | lib/includes/net/tcp/ip.h:36-59 | the countdown loop produces the octets in decimal from the top byte, joined by '.', then NUL, ':' and the port in decimal |
| Ip.IpV6.constructor | lib/includes/net/tcp/ip.h:64-77 | the record holds the port, flow and scope, and the first 16 bytes of the given octets |
| Ip.ParseOctets | lib/includes/net/tcp/ip.h:185-189 | converting the fields with string_to_numeric<uint8_t> gives one byte value per field, or an error |
| Ip.ParseOctetsAppend | lib/includes/net/tcp/ip.h:177-195 | converting a concatenation of fields reports the first half's error, else the second's, else both value lists |
| Ip.ParseOctetsAt | lib/includes/net/tcp/ip.h:185-189 | a successful conversion holds, at each index, the value of that field |
| Ip.ParseOctetsAll | lib/includes/net/tcp/ip.h:185-189 | conversely, when every field converts the whole list converts, to the fields' values |
| Ip.ParseOctetsFirstError | lib/includes/net/tcp/ip.h:185-189 | the error reported is that of the first field that fails to convert |
| Ip.ParseDottedQuad | lib/includes/net/tcp/ip.h:172-204 | the loop of make_v4(port, string) computes exactly the specification: the four fields up to each '.' packed from the top byte, the first conversion error, or invalid_argument when fewer than four fields are read |
| Ip.MakeV4Sound | lib/includes/net/tcp/ip.h:172-204 | a successful make_v4 read at least four fields, and byte 3 - i of the result holds the value of field i |
| Ip.DottedQuadTail | lib/includes/net/tcp/ip.h:177-195 | text after the fourth field (from a '.') is ignored: a dotted quad followed by it parses to the address |
| Ip.DottedQuadRoundTrip | lib/includes/net/tcp/ip.h:172-204 | make_v4 inverts the dotted quad: parsing the text of x gives x back |
| Ip.FewFieldsInvalid | lib/includes/net/tcp/ip.h:197-201 | fewer than four fields that all convert make make_v4 throw invalid_argument |
| Ip.ThreeFieldsInvalid | lib/includes/net/tcp/ip.h:197-201 | three octets joined by '.' are rejected with invalid_argument |
| Ip.ToStringDoesNotParse | lib/includes/net/tcp/ip.h:36-59 | the part of to_string's text before its first ':' is the dotted quad followed by NUL, and make_v4 refuses it: the fourth field ends in the NUL, so it is out of range after a three-digit octet and not a number otherwise |
| Ip.IpAddress.constructor | lib/includes/net/tcp/ip.h:98-102 | a default address has no version and no records, and is_valid is false |
| Ip.IpAddress.Copy | lib/includes/net/tcp/ip.h:104-122 | the copy has the version and a fresh copy of each record the original holds, null where it holds none |
| Ip.IpAddress.Assign | lib/includes/net/tcp/ip.h:124-149 | self-assignment changes nothing; otherwise the version is copied, and a fresh copy of the v4 record for IPv4, else of the v6 record, replaces the other pointer with null |
| Ip.IpAddress.MakeV4 | lib/includes/net/tcp/ip.h:151-161 | a fresh IPv4 address holding the port and octets, valid |
| Ip.IpAddress.MakeV4FromString | lib/includes/net/tcp/ip.h:163-205 | succeeds exactly when the dotted-quad parse does, with those octets and the port; otherwise it carries the same error |
| Ip.IpAddress.MakeV6 | lib/includes/net/tcp/ip.h:208-221 | a fresh IPv6 address holding the port, flow, scope and first 16 octet bytes, valid |
| Ip.IpAddress.IsValid | lib/includes/net/tcp/ip.h:227 | is_valid is true when a version is set, which for a consistent address is exactly when it holds a v4 or a v6 record |
| Ip.Write | lib/includes/net/tcp/ip.h:244-255 | an IPv4 address is written as its to_string text; any other writes nothing |
| DateTimes.Zeros | lib/includes/core/datetime/date_time.h:181-186 | the setfill('0') padding: k zero characters, none for k <= 0 |
| DateTimes.Directive | lib/includes/core/datetime/date_time.h:178-227 | a letter outside F, Y, m, d, T, H, M, S writes nothing |
| DateTimes.Format | lib/includes/core/datetime/date_time.h:158-232 | the loop over the format, with its gotDelim flag, produces exactly the formatting specification: literals copied, each '%' and the letter after it replaced by that directive's text |
| DateTimes.FormatLiteral | lib/includes/core/datetime/date_time.h:167-176 | a format without '%' is copied unchanged |
| DateTimes.FormatAppend | lib/includes/core/datetime/date_time.h:167-229 | formatting a + b gives the text for a, then the text for b from the flag state a leaves |
| DateTimes.DirectiveOnly | lib/includes/core/datetime/date_time.h:178-228 | "%c" writes exactly c's directive; an unknown letter, "%%" and a lone '%' write nothing |
| DateTimes.TrailingPercent | lib/includes/core/datetime/date_time.h:169-176 | a trailing '%' adds nothing to the text |
| DateTimes.PaddedDigits | lib/includes/core/datetime/date_time.h:181-186 | a component below 10^w padded to width w is exactly w digits and reads back as itself with string_to_numeric<uint32_t> |
| DateTimes.IsoText | lib/includes/core/datetime/date_time.h:372-381 | operator<< writes the %F text, 'T', then the %T text |
| DateTimes.ReadDate | lib/includes/core/datetime/date_time.h:314-326 | the %F case: invalid_argument below 10 characters; otherwise year, month and day from offsets 0, 5 and 8 (or the first conversion error), and 11 characters erased |
| DateTimes.ReadTime | lib/includes/core/datetime/date_time.h:328-343 | the %T case: invalid_argument below 12 characters; otherwise hours, minutes, seconds and milliseconds from offsets 0, 3, 6 and 9, and the text cut to 12 characters |
| DateTimes.Parse | lib/includes/core/datetime/date_time.h:284-351 | the loop over the format produces exactly the parse specification: literal characters skip no input, %F and %T read their fields, other directives read nothing |
| DateTimes.ParseSkipsLiteral | lib/includes/core/datetime/date_time.h:305-310 | literal format characters are skipped without reading the input |
| DateTimes.ParseSkipsDirective | lib/includes/core/datetime/date_time.h:312-345 | a directive other than %F and %T reads nothing |
| DateTimes.ParseTooShort | lib/includes/core/datetime/date_time.h:315-334 | %F on fewer than 10 characters, or %T on fewer than 12, throws invalid_argument |
| DateTimes.WriteIso | lib/includes/core/datetime/date_time.h:372-381 | operator<< writes the "%FT%T" formatting, which for in-range components is 23 characters long |
| DateTimes.Extracted | lib/includes/core/datetime/date_time.h:361-362 | get(str, n + 1) reads a prefix of at most n characters without '\n', stopping early only at a '\n' or the end of input |
| DateTimes.ReadIso | lib/includes/core/datetime/date_time.h:354-370 | operator>> is the extraction of up to 23 characters, cut at a NUL, parsed with "%FT%T" |
| DateTimes.IsoLayout | lib/includes/core/datetime/date_time.h:69 | the "%FT%T" text of in-range components is ISO_STR_LEN (23) characters without NUL or '\n' |
| DateTimes.DateStep | lib/includes/core/datetime/date_time.h:314-326 | %F on the ISO text reads back the date components and leaves the time text |
| DateTimes.TimeStep | lib/includes/core/datetime/date_time.h:328-343 | %T on the time text reads back the time components |
| DateTimes.IsoRoundTrip | lib/includes/core/datetime/date_time.h:284-381 | parsing the "%FT%T" text with "%FT%T" gives back every component that was written |
| DateTimes.StreamRoundTrip | lib/includes/core/datetime/date_time.h:354-381 | operator>> after operator<< reads the 23 written characters whole, gives the same components, and leaves the input after them in the stream |
| XmlNodes.KindCode | lib/includes/data/xchange/xml/xml_node.h:18-25 | each kind's enumerator value, at most 4 |
| XmlNodes.KindCodeInjective | lib/includes/data/xchange/xml/xml_node.h:18-25 | distinct kinds have distinct enumerator values |
| XmlNodes.AttributeNode.ToString | lib/includes/data/xchange/xml/xml_attribute.h:67-73 | the text is a space, the name, '=', and the value between double quotes, unescaped, and the name and value can be read back from it by position |
| XmlNodes.AttributeAccessors | lib/includes/data/xchange/xml/xml_attribute.h:32-65 | the getters return what was constructed or last set; each setter replaces only its own field; the type stays Attribute |
| XmlNodes.TextNode.ToString | lib/includes/data/xchange/xml/xml_text.h:48-54 | the text is written as a comment: "<!--", the text, "-->" |
| XmlNodes.TextAccessors | lib/includes/data/xchange/xml/xml_text.h:30-46 | get_name is always empty; get_value returns the constructed or last set text; the type stays Text |
| XmlNodes.KindOf | lib/includes/data/xchange/xml/xml_node.h:40-43 | get_type is Element exactly for element nodes |
| XmlNodes.NodeAtSnoc | lib/includes/data/xchange/xml/xml_element.h:266-316 | following a path one step further is following it to its end and then one child |
| XmlRender.ToStringRecur | lib/includes/data/xchange/xml/xml_element.h:483-543 | to_string_recur appends exactly the rendering of the element at that indentation to s |
| XmlRender.AppendChild | lib/includes/data/xchange/xml/xml_element.h:497-523 | one pass of the children loop appends that child's piece, and the start tag is closed from then on once a text or element child has been met |
| XmlRender.ClosedIffContent | lib/includes/data/xchange/xml/xml_element.h:490-524 | the children loop closes the start tag exactly when some child is text or an element |
| XmlRender.AttrsOnlyOut | lib/includes/data/xchange/xml/xml_element.h:499-502 | with attributes only, the loop writes exactly their texts in list order and leaves the tag open |
| XmlRender.RenderEmpty | lib/includes/data/xchange/xml/xml_element.h:526-530 | no text or element child and an empty value: <name attrs/> on one line |
| XmlRender.ClosedAfterAttrs | lib/includes/data/xchange/xml/xml_element.h:504-518 | the children's text is the attributes before the first text or element child, then ">\n", then the rest |
| XmlRender.RenderValue | lib/includes/data/xchange/xml/xml_element.h:533-538 | a non-empty value is written after the children as ">value</name>\n", so after a closing ">\n" a second '>' precedes the value |
| XmlRender.RenderValueInline | lib/includes/data/xchange/xml/xml_element.h:533-538 | a non-empty value and attributes only: <name attrs>value</name> on one line |
| XmlRender.RenderEndTagLine | lib/includes/data/xchange/xml/xml_element.h:540-541 | no value but text or element children: the end tag is on its own line at the element's indentation |
| XmlRender.RenderShape | lib/includes/data/xchange/xml/xml_element.h:486-488 | every rendering starts with its indentation and '<' and ends with a newline |
| XmlRender.ChildIndent | lib/includes/data/xchange/xml/xml_element.h:513-521 | a child element's piece ends with its rendering, indented three spaces deeper than the parent |
| XmlElements.FindQuote | lib/includes/data/xchange/xml/xml_element.h:423-432 | the index of the first quote character, or the end, with no quote before it |
| XmlElements.ScanName | lib/includes/data/xchange/xml/xml_element.h:381-396 | the name loop stops at a '/' (ending the element), at whitespace, or at the end of the tag text |
| XmlElements.AttrAt | lib/includes/data/xchange/xml/xml_element.h:410-436 | an attribute read consumes at least one character |
| XmlElements.PushFronts | lib/includes/data/xchange/xml/xml_element.h:435 | pushing attributes to the front adds exactly one node per attribute |
| XmlElements.Cleared | lib/includes/data/xchange/xml/xml_element.h:350 | child_nodes_.clear() as written removes only the head node, when the element owns that cell (see Left out) |
| XmlElements.ReadTag | lib/includes/data/xchange/xml/xml_element.h:354-355 | the tag read never moves the stream back, consumes input when it succeeds, and leaves match-all and keep-delimiter off |
| XmlElements.ElementSpec | lib/includes/data/xchange/xml/xml_element.h:346-475 | deserialize consumes input whenever it accepts an element, so the recursion over child elements ends |
| XmlElements.ContentRound | lib/includes/data/xchange/xml/xml_element.h:441-464 | a content round never moves the stream back and adds at most one comment node |
| XmlElements.ContentStep | lib/includes/data/xchange/xml/xml_element.h:439-472 | a round and a child read never move the stream back; an accepted child consumes input |
| XmlElements.XmlElement.Tree | lib/includes/data/xchange/xml/xml_element.h:52-54 | the element as a tree node holds its own name, value and children |
| XmlElements.XmlElement.constructor | lib/includes/data/xchange/xml/xml_element.h:58-62 | a new element has an empty name and value and no children |
| XmlElements.XmlElement.Named | lib/includes/data/xchange/xml/xml_element.h:64-67 | the given name, an empty value, no children |
| XmlElements.XmlElement.Copy | lib/includes/data/xchange/xml/xml_element.h:69-75 | the copy has the same name, value and children (its list is modelled as owned, see Left out) |
| XmlElements.XmlElement.SetName | lib/includes/data/xchange/xml/xml_element.h:92-95 | replaces the name and nothing else |
| XmlElements.XmlElement.SetValue | lib/includes/data/xchange/xml/xml_element.h:102-105 | replaces the value and nothing else |
| XmlElements.XmlElement.AddAttribute | lib/includes/data/xchange/xml/xml_element.h:107-110 | the attribute is put in front of the children |
| XmlElements.XmlElement.AddAttributeNamed | lib/includes/data/xchange/xml/xml_element.h:112-115 | an attribute made of name and value is put in front of the children |
| XmlElements.XmlElement.AddText | lib/includes/data/xchange/xml/xml_element.h:117-120 | the text node is appended to the children |
| XmlElements.XmlElement.AddElement | lib/includes/data/xchange/xml/xml_element.h:122-125 | a copy of the element as it was is appended to the children (the copy's list is modelled as owned, see Left out) |
| XmlElements.XmlElement.AddElementNamed | lib/includes/data/xchange/xml/xml_element.h:127-130 | a new empty element with that name is appended |
| XmlElements.XmlElement.GetChildElements | lib/includes/data/xchange/xml/xml_element.h:137-154 | the loop returns exactly the element children, in list order |
| XmlElements.ChildElementsMembers | lib/includes/data/xchange/xml/xml_element.h:137-154 | a node is in get_child_elements exactly when it is a child that is an element |
| XmlElements.ChildElementsConcat | lib/includes/data/xchange/xml/xml_element.h:137-154 | the filter keeps list order: it distributes over concatenation |
| XmlElements.XmlElement.ToString | lib/includes/data/xchange/xml/xml_element.h:80-85 | to_string is the rendering of the element at indentation 0 |
| XmlElements.XmlElement.GetName | lib/includes/data/xchange/xml/xml_element.h:87-90 | the name is the element's name, and to_string opens with "<" followed by it |
| XmlElements.XmlElement.GetValue | lib/includes/data/xchange/xml/xml_element.h:97-100 | the value is the element's value, and a non-empty value is written by to_string just before the end tag, as ">value</name>" and a line break |
| XmlElements.XmlElement.Deserialize | lib/includes/data/xchange/xml/xml_element.h:346-475 | deserialize's result, name, value, children (attributes pushed in front of what clear left, then content nodes) and stream position are those of the element reading specification, for a child list the element built itself (see Left out) |
| XmlElements.XmlElement.ReadTagBody | lib/includes/data/xchange/xml/xml_element.h:381-474 | the name, attribute and content loops together do what the tag-body specification says |
| XmlElements.XmlElement.ReadName | lib/includes/data/xchange/xml/xml_element.h:381-396 | the name loop appends the scanned name, quotes dropped, and reports where it stopped and whether a '/' ended the element |
| XmlElements.XmlElement.ReadAttributes | lib/includes/data/xchange/xml/xml_element.h:398-437 | the attribute loop reports the scan's outcome and pushes the scanned attributes in front of the children |
| XmlElements.XmlElement.ReadContent | lib/includes/data/xchange/xml/xml_element.h:439-472 | the content loop does what the content specification says: the value, the comment and element nodes appended, and the stream position |
| XmlElements.XmlElement.ReadContentStep | lib/includes/data/xchange/xml/xml_element.h:441-471 | one pass appends its nodes and the loop from there agrees with the specification |
| XmlElements.XmlElement.ReadRound | lib/includes/data/xchange/xml/xml_element.h:441-464 | the character-data read and a following comment agree with the content-round specification |
| XmlElements.ReadCharData | lib/includes/data/xchange/xml/xml_element.h:442-445 | the settings changes and the read of character data up to the next '<' agree with the text-read specification |
| XmlElements.ReadComment | lib/includes/data/xchange/xml/xml_element.h:452-461 | the comment branch agrees with the comment-read specification |
| XmlElements.ReadTagText | lib/includes/data/xchange/xml/xml_element.h:354-355 | the discard and the read up to '>' agree with the tag-read specification |
| XmlElements.PushFrontsReverses | lib/includes/data/xchange/xml/xml_element.h:435 | pushing attributes to the front puts them, in reverse order, before the list |
| XmlElements.AddAttributeKeepsOrder | lib/includes/data/xchange/xml/xml_element.h:107-110 | add_attribute keeps all attributes before the other children |
| XmlElements.AppendKeepsOrder | lib/includes/data/xchange/xml/xml_element.h:117-125 | add_text and add_element keep all attributes before the other children |
| XmlElements.DeserializedChildren | lib/includes/data/xchange/xml/xml_element.h:346-475 | an element read into a fresh node holds its attributes first, newest first, then only text and element nodes |
| XmlElements.ElementNodesNoAttrs | lib/includes/data/xchange/xml/xml_element.h:439-472 | deserialize appends only text and element nodes after the attributes |
| XmlElements.ShortTagRefused | lib/includes/data/xchange/xml/xml_element.h:357-358 | a tag text shorter than four characters is refused, so <a> is not read |
| XmlElements.EndTagRefused | lib/includes/data/xchange/xml/xml_element.h:365-367 | an end tag is refused and consumed without building anything |
| XmlElements.CommentTagRefused | lib/includes/data/xchange/xml/xml_element.h:369-371 | a tag opening with "<!-" is refused the same way |
| XmlElements.StartTagRead | lib/includes/data/xchange/xml/xml_element.h:354-475 | a start tag is read by the name, attribute and content loops over the text after '<' |
| XmlElements.DeclarationSkipped | lib/includes/data/xchange/xml/xml_element.h:373-379 | a leading <?...?> declaration is skipped and the element after it is read as if it came first |
| XmlElements.TextReadAtTag | lib/includes/data/xchange/xml/xml_element.h:442-449 | at a '<' the character-data read yields nothing and leaves the '<' unread |
| XmlElements.EndTagEndsContent | lib/includes/data/xchange/xml/xml_element.h:466-469 | any end tag stops the content loop, whatever its name: names are never compared |
| XmlElements.ContentAtEndOfInput | lib/includes/data/xchange/xml/xml_element.h:439-449 | at the end of the input the content loop's read fails the stream and the loop ends |
| XmlElements.ClosedByAnyEndTag | lib/includes/data/xchange/xml/xml_element.h:346-475 | <inner></other> reads as an empty element inner, whatever other is |
| XmlElements.CloseNameNotCompared | lib/includes/data/xchange/xml/xml_element.h:346-475 | <outer><inner></other> reads as outer holding an empty inner, whether or not other names outer |
| XmlIterator.PointerCursor | lib/includes/data/xchange/xml/xml_element.h:200-205 | iterator(e) is on e and not faulted |
| XmlIterator.HostChildren | lib/includes/data/xchange/xml/xml_element.h:168-188 | a frame's list is the children of the element its host names |
| XmlIterator.Bump | lib/includes/data/xchange/xml/xml_element.h:285 | ++next_ moves the frame's cursor by one, or faults at the end or without a host |
| XmlIterator.EraseLoop | lib/includes/data/xchange/xml/xml_element.h:329-335 | erase's trail loop empties the trail and leaves the node and cell unchanged |
| XmlIterator.RemoveAt | lib/includes/data/xchange/xml/xml_element.h:338 | removing a child keeps the node's kind, name and value; an owned cell is assumed (see Left out) |
| XmlIterator.ElementIterator.Begin | lib/includes/data/xchange/xml/xml_element.h:342 | begin() is the iterator on this element with the first child next |
| XmlIterator.ElementIterator.Pointing | lib/includes/data/xchange/xml/xml_element.h:200-205 | iterator(e) on the element at a path |
| XmlIterator.ElementIterator.End | lib/includes/data/xchange/xml/xml_element.h:343 | end() has a null node |
| XmlIterator.ElementIterator.Equals | lib/includes/data/xchange/xml/xml_element.h:256-264 | only the node pointers are compared: an iterator equals end() exactly when its walk has ended, whatever its trail or fault flag |
| XmlIterator.ElementIterator.Advance | lib/includes/data/xchange/xml/xml_element.h:266-316 | advance moves the iterator exactly as the advance specification says: into the first child, to the next sibling, or back up the trail |
| XmlIterator.ElementIterator.PopTrail | lib/includes/data/xchange/xml/xml_element.h:302-315 | the trail loop agrees with the backtracking specification |
| XmlIterator.Erase | lib/includes/data/xchange/xml/xml_element.h:322-340 | erase always returns true and changes the tree as the erase specification says, for a cell its list owns (see Left out) |
| XmlIterator.WalkSnoc | lib/includes/data/xchange/xml/xml_element.h:223-226 | one more ++ at the end of a walk is one more advance |
| XmlIterator.AdvanceToFirstChild | lib/includes/data/xchange/xml/xml_element.h:268-289 | from an element with children, advance moves to its first child |
| XmlIterator.AdvanceToEnd | lib/includes/data/xchange/xml/xml_element.h:302-315 | with no child, no sibling and an empty trail, advance reaches end() |
| XmlIterator.AdvanceFromEnd | lib/includes/data/xchange/xml/xml_element.h:268 | advancing at end() dereferences null |
| XmlIterator.FlatWalk | lib/includes/data/xchange/xml/xml_element.h:266-316 | an element with only attribute and text children is walked in list order |
| XmlIterator.FlatWalkEnds | lib/includes/data/xchange/xml/xml_element.h:293-315 | after the last such child the walk reaches end() |
| XmlIterator.TwoLeavesVisitsLastTwice | lib/includes/data/xchange/xml/xml_element.h:279-311 | in a(b, d) the walk visits a, b, d, d: the saved frame still points at b |
| XmlIterator.ChainFaultsOnBacktrack | lib/includes/data/xchange/xml/xml_element.h:305-311 | in a(b(c)) leaving c steps b's frame past the end of a's list: undefined |
| XmlIterator.RemoveAtRemoves | lib/includes/data/xchange/xml/xml_element.h:338 | exactly the k-th child of the element at the parent path is removed, the others keep their order |
| XmlIterator.EraseKeepsCursor | lib/includes/data/xchange/xml/xml_element.h:322-340 | erase leaves the iterator's node and cell as they were |
| XmlIterator.EraseInHostList | lib/includes/data/xchange/xml/xml_element.h:322-340 | when the cell lies in ep's list exactly that child is removed |
| XmlIterator.EraseOtherList | lib/includes/data/xchange/xml/xml_element.h:322-340 | a cell outside ep's list is not removed: the tree is unchanged |
| XmlIterator.EraseDeepIsNoOp | lib/includes/data/xchange/xml/xml_element.h:329-338 | after descending to a grandchild, erase picks the wrong list and removes nothing |
| XmlIterator.EraseTopLevelChild | lib/includes/data/xchange/xml/xml_element.h:322-340 | erasing a top-level element right after advancing onto it removes it |
| XmlDocuments.GetLine | lib/includes/data/xchange/json/json_document.h:146 | getline takes no more text than the document holds |
| XmlDocuments.AtSpec | lib/includes/data/xchange/json/json_document.h:155-186 | at_recur only moves the segment cursor forward, and a success has used every segment |
| XmlDocuments.ChildLoop | lib/includes/data/xchange/json/json_document.h:171-185 | the same for the child loop of at_recur |
| XmlDocuments.XmlDocument.constructor | lib/includes/data/xchange/json/json_document.h:51-53 | the declaration and an empty root |
| XmlDocuments.XmlDocument.FromElement | lib/includes/data/xchange/json/json_document.h:55-58 | the declaration and a copy of e as the root (the copy's list is modelled as owned, see Left out) |
| XmlDocuments.XmlDocument.Serialize | lib/includes/data/xchange/json/json_document.h:134-140 | the declaration, a newline, then the root's text |
| XmlDocuments.XmlDocument.Deserialize | lib/includes/data/xchange/json/json_document.h:142-148 | the first line becomes the document type and the root reads itself from the rest, for a root list it built itself (see Left out) |
| XmlDocuments.XmlDocument.Begin | lib/includes/data/xchange/json/json_document.h:150 | an iterator on the root |
| XmlDocuments.XmlDocument.At | lib/includes/data/xchange/json/json_document.h:111-132 | at(path) is the iterator the path specification gives |
| XmlDocuments.XmlDocument.FindElement | lib/includes/data/xchange/json/json_document.h:93-109 | the loop stops where the search specification stops: end() or the first element with the name |
| XmlDocuments.XmlDocument.FindFromBegin | lib/includes/data/xchange/json/json_document.h:88-91 | find_element(s) is the search from begin() |
| XmlDocuments.AtRecur | lib/includes/data/xchange/json/json_document.h:155-186 | the recursion agrees with the at_recur specification: success, the element reached and the segment cursor |
| XmlDocuments.GetLineSerialized | lib/includes/data/xchange/json/json_document.h:134-148 | reading a serialized document takes the declaration back as the first line and leaves the root's text |
| XmlDocuments.AtSound | lib/includes/data/xchange/json/json_document.h:155-186 | a success leaves eptr on an element named by the last segment |
| XmlDocuments.ChildLoopSound | lib/includes/data/xchange/json/json_document.h:171-185 | a success of the child loop comes from an element named by the last segment |
| XmlDocuments.ChildLoopReaches | lib/includes/data/xchange/json/json_document.h:171-185 | the loop skips children that are not elements named by the segment and returns the first success |
| XmlDocuments.AtFindsLeftmost | lib/includes/data/xchange/json/json_document.h:155-186 | at_recur finds the element at the end of a leftmost path that spells the segments |
| XmlDocuments.AtOnlySlashes | lib/includes/data/xchange/json/json_document.h:117-118 | a path of slashes only has no segment: at returns end() |
| XmlDocuments.AtMissesLaterSibling | lib/includes/data/xchange/json/json_document.h:164-185 | a/b/c exists in a(b, b(c)), but at does not find it |
| XmlDocuments.AtReturnsWrongElement | lib/includes/data/xchange/json/json_document.h:164-185 | a(b(x), c) has no a/b/c, yet at returns a/c |
| XmlDocuments.AtPathDefects | lib/includes/data/xchange/json/json_document.h:111-132 | at("a/b/c") on those trees: end() and the element c |
| XmlDocuments.FindIsFirstStop | lib/includes/data/xchange/json/json_document.h:93-109 | the search ends at the first stop of the walk: no earlier position is end() or an element with the name |
| XmlDocuments.FindReachesStop | lib/includes/data/xchange/json/json_document.h:93-109 | conversely a first stop within the fuel is where the search ends |
| XmlDocuments.FindInFlatElement | lib/includes/data/xchange/json/json_document.h:93-109 | a search in an element with only attributes and text, for another name, ends at end() |
| XmlDocuments.FindInTwoLeaves | lib/includes/data/xchange/json/json_document.h:93-109 | find_element("d") on a(b, d) stops at d |
| XmlRoundTrip.AttrReadBack | lib/includes/data/xchange/xml/xml_element.h:398-437 | the attribute loop reads a written attribute back as itself and continues after it |
| XmlRoundTrip.AttrsReadBack | lib/includes/data/xchange/xml/xml_element.h:398-437 | a run of written attributes is read back in the order they were written |
| XmlRoundTrip.AttrsTextIsString | lib/includes/data/xchange/xml/xml_element.h:499-502 | the writer's attribute text is the attributes' to_string texts in order |
| XmlRoundTrip.TagBodyAttrsOnly | lib/includes/data/xchange/xml/xml_element.h:381-437 | the name and attribute loops over name, attributes and "/": an element closed in its start tag with those attributes |
| XmlRoundTrip.AttrsOnlyRoundTrip | lib/includes/data/xchange/xml/xml_element.h:346-543 | an element with a plain name and attributes only, written and read back, is accepted with its name, an empty value and its attributes in reverse order |
| XmlRoundTrip.DocumentRoundTripAttrsOnly | lib/includes/data/xchange/json/json_document.h:134-148 | a serialized document whose root holds attributes only reads back the declaration and that root, attributes reversed |
| XmlRoundTrip.CommentRoundTrip | lib/includes/data/xchange/xml/xml_element.h:452-463 | a text node's "<!--text-->" read back by the comment branch gives the same text, and the stream goes on after "-->", for every text without a NUL, without "-->" inside, not ending in '-' and not opening with whitespace or '-' |
| XmlRoundTrip.ScanAllSafeText | lib/includes/core/io/stream_parser.h:64-116 | the match_all scan for "-->" over such a text and the delimiter: every failed attempt at a '-' lies inside the text and is kept, so the token is the text and the scan ends just after "-->" |
| XmlRoundTrip.InnerDashesKept | lib/includes/data/xchange/xml/xml_element.h:452-463 | dashes inside a comment survive: "a-b--c" is read back as itself |
| XmlRoundTrip.DashedCommentDropsSpace | lib/includes/data/xchange/xml/xml_element.h:457-461 | a comment text opening with '-' and another character loses a space right after them |
| XmlRoundTrip.DashedCommentLosesSpace | lib/includes/data/xchange/xml/xml_element.h:457-461 | "-a b" is read back as "-ab" |
| JsonPrimitives.JsonString.Assign | lib/includes/data/xchange/json/json_primitive.h:32-36 | operator= replaces the stored string |
| JsonPrimitives.JsonString.GetValue | lib/includes/data/xchange/json/json_primitive.h:38-41 | get_value returns the stored string unchanged, without quotes or escaping |
| JsonPrimitives.JsonString.ToString | lib/includes/data/xchange/json/json_primitive.h:43-46 | to_string is the same text as get_value |
| JsonPrimitives.JsonNumber.Assign | lib/includes/data/xchange/json/json_primitive.h:65-69 | operator= replaces the stored number |
| JsonPrimitives.JsonNumber.ToString | lib/includes/data/xchange/json/json_primitive.h:76-81 | to_string is the stream's formatting of the number, given as a parameter |
| JsonPrimitives.JsonNumber.GetValue | lib/includes/data/xchange/json/json_primitive.h:71-74 | get_value is to_string |
| JsonPrimitives.JsonBool.Assign | lib/includes/data/xchange/json/json_primitive.h:101-105 | operator= replaces the stored flag |
| JsonPrimitives.JsonBool.ToString | lib/includes/data/xchange/json/json_primitive.h:112-117 | without boolalpha the flag is written as one digit, '1' exactly when it is true |
| JsonPrimitives.JsonBool.GetValue | lib/includes/data/xchange/json/json_primitive.h:107-110 | get_value is to_string |
| JsonPrimitives.BoolTextInjective | lib/includes/data/xchange/json/json_primitive.h:112-117 | two flags print the same text exactly when they are equal |
| JsonNodes.Code | lib/includes/data/xchange/json/json_node.h:17-25 | each type's enumerator value, at most 5, with 0 only for Unknown |
| JsonNodes.CodeInjective | lib/includes/data/xchange/json/json_node.h:17-25 | the enumerator values are distinct |
| JsonNodes.KindOf | lib/includes/data/xchange/json/json_node.h:40-43 | get_type is the type each constructor passes down, never Unknown, one per kind of node |
| JsonNodes.AssignKeepsKind | lib/includes/data/xchange/json/json_primitive.h:32-105 | assigning a primitive a new value keeps its type |
| JsonNodes.GetValue | lib/includes/data/xchange/json/json_primitive.h:38-110 | get_value of a string is the string, of a number its formatting, of a Boolean "1" or "0"; of a list or an object it is "" |
| JsonLists.JsonList.constructor | lib/includes/data/xchange/json/json_list.h:28-31 | a new list is empty and reports Array |
| JsonLists.JsonList.Kind | lib/includes/data/xchange/json/json_list.h:28-31 | get_type is Array |
| JsonLists.JsonList.Size | lib/includes/data/xchange/json/json_list.h:34 | size() is the number of elements |
| JsonLists.JsonList.At | lib/includes/data/xchange/json/json_list.h:38 | operator[] returns the element at the index |
| JsonLists.JsonList.PushBack | lib/includes/data/xchange/json/json_list.h:40-43 | the value becomes the last element, size grows by one, and the elements before it are untouched |
| JsonLists.JsonList.Elements | lib/includes/data/xchange/json/json_list.h:45-63 | a loop from begin() to end() yields the elements in insertion order |
| JsonLists.JsonList.ToString | lib/includes/data/xchange/json/json_list.h:65-73 | get_value and to_string of a list are "" |
| JsonLists.JsonList.Value | lib/includes/data/xchange/json/json_list.h:77 | the list as a tree node holds its elements |
| JsonObjects.EmptyTable | lib/includes/data/xchange/json/json_object.h:41-44 | a new property table has 1024 empty buckets |
| JsonObjects.LastIndexOf | lib/includes/data/xchange/json/json_object.h:111 | rfind gives the index of the last occurrence |
| JsonObjects.ParseKey | lib/includes/data/xchange/json/json_object.h:119-132 | parse_key never moves the stream back and consumes input when it yields a key |
| JsonObjects.Primitive | lib/includes/data/xchange/json/json_object.h:211-236 | a primitive node is only made from a non-empty token |
| JsonObjects.ReadObject | lib/includes/data/xchange/json/json_object.h:134-257 | recur_object keeps the table's bucket count and consumes input on a good stream |
| JsonObjects.ObjectMembers | lib/includes/data/xchange/json/json_object.h:153-255 | the members loop keeps the bucket count and never moves the stream back |
| JsonObjects.ReadList | lib/includes/data/xchange/json/json_object.h:259-376 | recur_list consumes input on a good stream |
| JsonObjects.ListElements | lib/includes/data/xchange/json/json_object.h:274-374 | the elements loop never moves the stream back |
| JsonObjects.ReadValue | lib/includes/data/xchange/json/json_object.h:159-243 | the value dispatch leaves match-all off, never moves the stream back, and consumes input when it makes a node |
| JsonObjects.QuotedValue | lib/includes/data/xchange/json/json_object.h:197-208 | the string branch makes only string nodes, consuming input |
| JsonObjects.JsonObject.constructor | lib/includes/data/xchange/json/json_object.h:41-44 | a new object has an empty table of 1024 buckets |
| JsonObjects.JsonObject.Kind | lib/includes/data/xchange/json/json_object.h:41-44 | get_type is Object |
| JsonObjects.JsonObject.Value | lib/includes/data/xchange/json/json_object.h:103 | the object as a tree node holds its properties in iteration order |
| JsonObjects.JsonObject.ToString | lib/includes/data/xchange/json/json_object.h:54-62 | to_string is the rendering of the object at level 0 |
| JsonObjects.JsonObject.AddProperty | lib/includes/data/xchange/json/json_object.h:69-72 | the table becomes its insertion of key and value, which keeps an existing value |
| JsonObjects.JsonObject.GetProperty | lib/includes/data/xchange/json/json_object.h:64-67 | the value stored for the key |
| JsonObjects.JsonObject.GetObject | lib/includes/data/xchange/json/json_object.h:79-93 | the value for the key when it is an object; otherwise the invalid_argument message naming the key |
| JsonObjects.JsonObject.Deserialize | lib/includes/data/xchange/json/json_object.h:96-100 | the table is cleared, then the result, the table and the stream are those of recur_object from an empty table |
| JsonObjects.ParseKeyRun | lib/includes/data/xchange/json/json_object.h:119-132 | the parser steps agree with the parse_key specification |
| JsonObjects.RecurObject | lib/includes/data/xchange/json/json_object.h:134-257 | the loop agrees with the recur_object specification: result, table and stream |
| JsonObjects.MemberStep | lib/includes/data/xchange/json/json_object.h:155-254 | one pass of the members loop agrees with the specification from there |
| JsonObjects.RecurList | lib/includes/data/xchange/json/json_object.h:259-376 | the loop agrees with the recur_list specification: result, elements and stream |
| JsonObjects.ElementStep | lib/includes/data/xchange/json/json_object.h:276-373 | one pass of the elements loop agrees with the specification from there |
| JsonObjects.ReadValueRun | lib/includes/data/xchange/json/json_object.h:159-243 | the value dispatch on the parser agrees with its specification |
| JsonObjects.QuotedValueRun | lib/includes/data/xchange/json/json_object.h:197-208 | the string branch on the parser agrees with its specification |
| JsonSerializer.ToStringRecur | lib/includes/data/xchange/json/json_object.h:379-474 | to_string_recur appends the node's rendering and reports success for every node type present |
| JsonSerializer.WriteObject | lib/includes/data/xchange/json/json_object.h:392-422 | the Object case appends the object's rendering |
| JsonSerializer.WriteList | lib/includes/data/xchange/json/json_object.h:424-450 | the Array case appends the list's rendering |
| JsonSerializer.WriteMembers | lib/includes/data/xchange/json/json_object.h:398-414 | the properties loop appends each member's text, a comma while ++s < size |
| JsonSerializer.WriteMember | lib/includes/data/xchange/json/json_object.h:402-413 | one member: the indented quoted key, " : ", the value one level deeper |
| JsonSerializer.WriteItems | lib/includes/data/xchange/json/json_object.h:430-442 | the elements loop appends each element's text, a comma while ++s < size |
| JsonSerializer.MembersCommas | lib/includes/data/xchange/json/json_object.h:398-414 | the members' text is their pieces in order, each carrying a comma except the last |
| JsonSerializer.ItemsCommas | lib/includes/data/xchange/json/json_object.h:430-442 | the elements' text is their pieces in order, each carrying a comma except the last |
| JsonSerializer.IndentDeeper | lib/includes/data/xchange/json/json_object.h:387-399 | three more spaces of indentation are one level deeper |
| JsonSerializer.ObjectLayout | lib/includes/data/xchange/json/json_object.h:392-422 | an object is "{", a newline, its members three spaces deeper with commas after all but the last, a newline and "}" at the object's indentation |
| JsonSerializer.ListLayout | lib/includes/data/xchange/json/json_object.h:424-450 | a list is "[", a newline, one indentation three deeper, the elements with commas after all but the last, a newline, the indentation and " ]" |
| JsonSerializer.PrimitiveText | lib/includes/data/xchange/json/json_object.h:452-465 | a string is written quoted and a number or Boolean bare, followed by ", " unless last |
| JsonReading.MatchHit | lib/includes/core/io/stream_parser.h:33-62 | match_any stops at the first delimiter: the token before it, the delimiter recorded, and kept in the stream only with keep-delims |
| JsonReading.MatchMiss | lib/includes/core/io/stream_parser.h:33-62 | without a delimiter match_any reads everything and fails the stream |
| JsonReading.DiscardHit | lib/includes/core/io/stream_parser.h:208-241 | discard through the first delimiter within the count |
| JsonReading.DiscardMiss | lib/includes/core/io/stream_parser.h:208-241 | discard through a delimiter that never comes fails the stream |
| JsonReading.DiscardOne | lib/includes/core/io/stream_parser.h:208-241 | discard(1) drops exactly one character |
| JsonReading.DequoteBetween | lib/includes/data/xchange/json/json_object.h:105-117 | dequote returns the text between the first and the last '"', quotes inside included |
| JsonReading.DequoteSingle | lib/includes/data/xchange/json/json_object.h:105-117 | with fewer than two '"' dequote returns "" |
| JsonReading.KeyRead | lib/includes/data/xchange/json/json_object.h:119-132 | parse_key reads up to the first ':', consumes it and dequotes what it read |
| JsonReading.KeyMissing | lib/includes/data/xchange/json/json_object.h:119-132 | without ':' the key read fails the stream and gives "" |
| JsonReading.PrimitiveCases | lib/includes/data/xchange/json/json_object.h:211-236 | a token is accepted exactly when it begins with "true" (Boolean true) or with a digit or '-' and parses (that number) |
| JsonReading.PrimitiveNeverFalse | lib/includes/data/xchange/json/json_object.h:220-223 | the four-character comparison with "false" never matches, so no false Boolean is read |
| JsonReading.IntendedPrimitiveFalse | lib/includes/data/xchange/json/json_object.h:216-231 | with five characters compared a token beginning with "false" is Boolean false, and every other token reads as before |
| JsonReading.BoolReadsAsNumber | lib/includes/data/xchange/json/json_object.h:211-236 | a Boolean's written "1" or "0" is read back as a number, or refused |
| JsonReading.StringValue | lib/includes/data/xchange/json/json_object.h:159-208 | a string value is read from its opening '"' to the next '"', which is consumed |
| JsonReading.PrimitiveValue | lib/includes/data/xchange/json/json_object.h:159-236 | a primitive value's read stops at the following ',' or closer and keeps it in the stream |
| JsonReading.NestedValue | lib/includes/data/xchange/json/json_object.h:173-194 | a '{' or '[' hands the stream, opener included, to the nested reader |
| JsonReading.StringMember | lib/includes/data/xchange/json/json_object.h:153-255 | a member with a string value is read and inserted; '}' ends the object, ',' continues it |
| JsonReading.PrimitiveMember | lib/includes/data/xchange/json/json_object.h:153-255 | a member with a primitive value is inserted when the token is accepted, and the separator is found after it |
| JsonReading.NestedMemberEndsOuter | lib/includes/data/xchange/json/json_object.h:173-181 | a nested object's '}' left in the stream ends the outer object too |
| JsonReading.StringElement | lib/includes/data/xchange/json/json_object.h:274-374 | after a ',' one more character is discarded, whatever it is |
| JsonReading.ElementQuoteEaten | lib/includes/data/xchange/json/json_object.h:371-372 | when that character was the opening quote, the list fails |
| JsonReading.QuoteUnclosed | lib/includes/data/xchange/json/json_object.h:197-205 | a string without a closing '"' fails the stream and makes no node |
| JsonReading.EmptyObjectRejected | lib/includes/data/xchange/json/json_object.h:153-157 | "{}" and the serializer's empty object are refused at the first key |
| JsonReading.EmptyKeyRejected | lib/includes/data/xchange/json/json_object.h:155-157 | a first key that dequotes to "" makes the object fail |
| JsonReading.EmptyListRejected | lib/includes/data/xchange/json/json_object.h:328-331 | "[]" and the serializer's empty list are refused |
| JsonReading.NestedEndsEarly | lib/includes/data/xchange/json/json_object.h:173-181 | in {"a": {"b": 1}, "c": 2} the outer object ends with the inner one and "c" is never read |
| JsonReading.OuterEndsWithInner | lib/includes/data/xchange/json/json_object.h:173-253 | the outer object ends at the '}' the inner object left |
| JsonReading.ListWithoutSpaceFails | lib/includes/data/xchange/json/json_object.h:371-372 | ["v1","v2"] fails after the first string: the discard after the comma takes the second opening quote |
| JsonReading.ListWithSpaceReads | lib/includes/data/xchange/json/json_object.h:259-376 | ["v1", "v2"], with a character after the comma, reads both strings |
| JsonReading.InsertAll | lib/includes/data/xchange/json/json_object.h:245 | inserting members one by one keeps the bucket count |
| JsonReading.MemberRead | lib/includes/data/xchange/json/json_object.h:153-255 | one member as written by the serializer is read and inserted, and the loop goes on after its separator |
| JsonReading.MembersReadBack | lib/includes/data/xchange/json/json_object.h:153-255 | the members' text followed by the closing "\n}" is read member by member, each inserted in order |
| JsonReading.ObjectReadBack | lib/includes/data/xchange/json/json_object.h:134-474 | an object of plain string members, written at level 0, reads back as those members inserted in order, consuming all the text |
| JsonReading.ItemsReadBack | lib/includes/data/xchange/json/json_object.h:274-374 | the elements' text followed by "\n ]" is read element by element |
| JsonReading.ListReadBack | lib/includes/data/xchange/json/json_object.h:259-474 | a list of plain strings written at level 0 reads back as the same elements in order |
| JsonReading.InsertAllLookup | lib/includes/data/xchange/json/json_object.h:245 | after the inserts a key maps to what the table held for it, else to its first member's value |
| JsonReading.TableIsIterated | lib/includes/data/xchange/json/json_object.h:400 | in a well-hashed table, find agrees with the first entry of that key in iteration order |
| JsonReading.ObjectRoundTrip | lib/includes/data/xchange/json/json_object.h:54-257 | to_string then deserialize: an object of plain string properties is read back whole, every key with its value |

## Left out

- StreamParsing.StreamParser.NextMatch, StreamParsing.StreamParser.MatchAll, StreamParsing.NextMatchStep and StreamParsing.NextMatchShrinks require at least one delimiter in match-all mode. match_all reads `delims_.front()` (lib/includes/core/io/stream_parser.h:73-75), which is undefined on an empty delimiter string.
- XmlElements.ScanAttrs: an attribute value with no closing quote ends the attribute scan (outcome TagEnd). The C++ loop moves its position past the end of the tag text, which is undefined behaviour.
- XmlRoundTrip.CommentRoundTrip is stated for texts with no NUL and no leading '-'. A NUL outside a failed "-->" attempt comes back unchanged, but the lemma does not cover it. A leading '-' followed by another character loses a space right after them (XmlRoundTrip.DashedCommentDropsSpace), so "-a b" reads back as "-ab". An embedded "-->", a trailing '-' and leading whitespace also break the round trip.
- XmlIterator.Erase: after an erase the iterator keeps its paths and frames as they were. In the C++ code they still refer to the freed list cell, and a later `++` from there is undefined. The model goes on walking from those positions in the new tree.
- JsonPrimitives, JsonObjects.Primitive and JsonSerializer: numbers are an opaque type parameter N. The caller supplies `parse` and `format` in place of the stream conversions of `double`. Floating point is not modelled.
- StringUtil.StringToNumeric: `pow(10, i)` (lib/includes/core/text/string_util.h:134) is modelled as the exact power of ten. Floating-point rounding of `pow` is not modelled.
- HashMaps.HashMap.constructor takes the hash as a parameter, an arbitrary deterministic function to 32-bit integers. `string_hash` (lib/includes/data/adt/hash_map_o.h:467-481) hashes the address of a temporary copy, so its values cannot be stated.
- HashMaps.HashMap.constructor requires a capacity c with 0 < c < 2^31. Capacity 0 makes the bucket index `hash % capacity_` (lib/includes/data/adt/hash_map_o.h:131) a division by zero. For capacities of 2^31 and above, `int idx` truncates that index. Neither case is modelled.
- HashMaps.HashMap: `grow` (lib/includes/data/adt/hash_map_o.h:87-119) is never called and is not modelled. The capacity stays as constructed.
- HashMaps.HashMap.Get requires the key to be present. `operator[]` dereferences the null node that `find` returns for a missing key.
- JsonObjects.JsonObject.AddProperty: `add_property` (lib/includes/data/xchange/json/json_object.h:69-72) is declared `void` but returns the `bool` of `insert`, so it does not compile once instantiated. The model takes the evident intent: insert the property and return nothing.
- RedBlackTrees.RedBlackTree.Remove models only the binary-search-tree deletion: the successor splice and the relinking. `fixup_delete` (lib/includes/data/adt/red_black_tree.h:271-345) does not compile, so Remove neither restores nor claims the red-black rules.
- RedBlackTrees.RedBlackTree.Remove: `delete del` (lib/includes/data/adt/red_black_tree.h:472) runs the node destructor (lines 50-57), which recursively frees del's child. When del had a child, that subtree has just been linked in its place. The model records this only by setting `dangling`. Its contract still describes the links as if only del were freed, and later operations on a dangling tree, all undefined in C++, go on working on those links.
- RedBlackTrees.RedBlackTree: the node links that the node constructor leaves uninitialised (lib/includes/data/adt/red_black_tree.h:44-48) are modelled as null. The tree is a value tree with a zipper, so parent pointers are the zipper's context frames rather than heap links.
- RedBlackTrees.TreeIterator: `operator++(int)` assigns `this->ptr`, which does not exist, and is not modelled. Only the prefix `operator++` is modelled, as TreeIterator.Next.
- RedBlackTrees.TreeIterator.Value returns the current node's key and value. `operator*` returns only the value; the key is kept so that lemmas can relate the walk to the in-order sequence.
- XmlElements.XmlElement and XmlDocuments.XmlDocument: the children are a value tree with exclusive ownership. The element copy constructor (lib/includes/data/xchange/xml/xml_element.h:69-75) shares the children's `shared_ptr`s between the copy and the original, so a later change through one shows in the other. That aliasing is not modelled.
- XmlElements.XmlElement and XmlDocuments.XmlDocument: the child list of every element is modelled as owned by that element. In the C++ code each list cell records its owning list, and `erase` and `clear` act only on cells whose owner is this list (lib/includes/data/adt/linked_list.h:294, 313-319). A copied child list owns none of its cells: `child_nodes_ = e.child_nodes_` (lib/includes/data/xchange/xml/xml_element.h:69-75) goes through copy-and-swap (linked_list.h:212-239), so the head keeps the source list as owner and the later cells keep the destroyed temporary. Cells pushed afterwards, and the children that deserialize builds and pushes itself, are owned. Per-cell ownership is not modelled, so the members below are faithful only for lists the element built itself.
- XmlElements.XmlElement.Copy: the copy's child list is modelled as owned. In C++ none of its cells is owned by the copy, so a later `clear` or iterator `erase` on the copy leaves them in place.
- XmlElements.XmlElement.AddElement: the appended child is a copy (`new element_t(e)`, lib/includes/data/xchange/xml/xml_element.h:122-125), whose own child list is modelled as owned although in C++ none of its cells is.
- XmlDocuments.XmlDocument.FromElement: the root is a copy of e, whose child list is modelled as owned although in C++ none of its cells is.
- XmlElements.Cleared holds only for a head cell the element owns. On a copied list C++ `clear` removes nothing, because `erase` refuses the foreign head and `--it` then ends the loop.
- XmlElements.XmlElement.Deserialize holds only for an element whose child list it built itself. On an element made by Copy, FromElement or AddElement's copy, C++ `clear` keeps every old child, so they stay after the attributes and content nodes that deserialize adds; the model drops the head.
- XmlDocuments.XmlDocument.Deserialize holds only for a root whose child list it built itself, for the same reason. After FromElement(e) with e holding one child element, reading "<?xml?>\n<root/>" keeps that child under the root in C++; the model leaves the root empty.
- XmlIterator.Erase holds only when the cell is owned by the host element's list. A copied cell is left in place by C++ `erase`; the model removes it.
- XmlIterator.RemoveAt holds only for a cell owned by the element's list, for the same reason.
- XmlDocuments.XmlDocument.FindElement takes a `fuel` bound on the number of iterator advances. The C++ loop runs until `end()` or a match. Every walk over a finite tree reaches `end()`, but the model states the result only for the fuel given.
- XmlDocuments.XmlDocument: the constructor that reads a document from a file (lib/includes/data/xchange/json/json_document.h:60-81) is file I/O and is not modelled. Deserialize from a stream is modelled.
- LinkedLists.LinkedList.Insert: inserting before the head leaves `head_` unchanged (lib/includes/data/adt/linked_list.h:282-289). The new node is then unreachable from the head, and the list is no longer Valid. The contract states that case as it is, without Valid.
- LinkedLists.LinkedList.Clear: `clear` steps `--it` from the erased head and reads its freed `prev_`. The model reads that link as null, so only the head is erased.
- LinkedLists.LinkedList.Erase and LinkedLists.LinkedList.Insert require that a node claiming this list as owner is in the list. The copy constructor leaves a copied head node naming the source list as owner, and erasing through such a node corrupts both lists. That misuse is excluded rather than modelled.
- XmlIterator.ElementIterator: dereferencing a null list cell or an end iterator is undefined in the C++ code. The model records it in the `faulted` flag and then changes nothing.
- JsonObjects.JsonObject.GetProperty requires the key to be present. `operator[]` on the property map dereferences null for a missing key.
- JsonObjects.JsonObject.GetObject requires the key to be present, for the same reason. The C++ code never returns the nullptr its signature allows.
- StringUtil.StringToNumeric handles the unsigned standard types only (8, 16, 32 and 64 bits). The signed instantiations are not modelled. StringUtil.NumericToString takes a natural number. `parse` and `try_parse` (lib/includes/core/text/string_util.h:176-194) go through string streams and floating point and are not modelled.
- Ip.IpAddress.Assign requires that a non-self right-hand side holds the record of its version. `operator=` (lib/includes/net/tcp/ip.h:136-144) dereferences a null record otherwise, and always copies the v6 record for NoVersion.
- Ip.ParseDottedQuad: `octet << 8*cnt` is computed in `int`. For octets of 128 and above at the top byte, that shift overflows a signed int before the conversion to `uint32_t`. The model packs the four bytes with unbounded arithmetic into the 32-bit word.
- Nullables.Nullable.Set: the `set(T*)` overload (lib/includes/core/nullable.h:84-88) passes a `T**` to the constructor, does not compile, and is not modelled.
- JsonLists.JsonList: `resize` and `clear` name the member `value_`, which does not exist. `at` returns `uint8_t&` from a vector of pointers (lib/includes/data/xchange/json/json_list.h:35-39). None of them compiles, so they are not modelled.
- DateTimes: the clock, the calendar and the component getters and setters are not modelled. The seven components are inputs of the formatter, and the parser's results are its outputs.
- Chars: `isspace`, `isalnum`, `toupper` and `tolower` are modelled over ASCII. The locale is not modelled.
- SftpFile: only the permission string and the type tests are modelled. The libssh calls and `get_size_str` (floating point) are not.

## Findings

Each row pairs a member that keeps the C++ behaviour with a corrected definition whose intended property is proved. The rest of the model keeps the behaviour as written, so that the model matches the C++ code. The corrected members stand beside it.

| source | as written | input that shows it | evidently intended | confidence | as-written member | corrected member |
|---|---|---|---|---|---|---|
| src/sftp_file.cpp:167-182 | the type tests use `type & MASK` against the overlapping libssh type codes | type 3 (symbolic link) | each of the four types named by its own word, any other type "unknown" | not executed | SftpFile.TypeMasksOverlap (on SftpFile.TypeStr) | SftpFile.IntendedTypeStr, proved by SftpFile.IntendedTypeStrNames |
| lib/includes/data/xchange/json/json_object.h:220-223 | the literal `false` is compared over 4 characters against the 5-character "false" | the member value `false` | `false` reads as the boolean false | not executed | JsonReading.PrimitiveNeverFalse (on JsonObjects.Primitive) | JsonReading.IntendedPrimitive, proved by JsonReading.IntendedPrimitiveFalse |
| lib/includes/net/tcp/ip.h:41-52 | the dots array `{0, '.', '.', '.'}` is indexed by the descending `cnt`, so dots[0], a NUL, is written after the last octet, before ':' | port 80, octets 0x7F000001 | "127.0.0.1:80", whose part before the ':' make_v4 parses back | not executed | Ip.V4TextNul and Ip.ToStringDoesNotParse (on Ip.IpV4.ToString) | Ip.IntendedV4Text, proved by Ip.IntendedV4TextParses |

## Defects modelled as written

The model keeps each of these as the C++ code behaves, and a lemma shows it on a concrete input:

- XmlIterator.TwoLeavesVisitsLastTwice: on a(b, d) the pre-order iterator visits a, b, d, d, then reaches end(). The frame saved on descending into b keeps its cursor on b, and backtracking steps from there onto d again.
- XmlIterator.ChainFaultsOnBacktrack: on the chain a(b(c)), backtracking out of c steps b's frame past the end of a's list and dereferences it (undefined behaviour in the C++ code).
- XmlIterator.EraseDeepIsNoOp: erasing through an iterator standing on a deep element leaves the tree unchanged.
- XmlDocuments.AtMissesLaterSibling, XmlDocuments.AtReturnsWrongElement and XmlDocuments.AtPathDefects: `at_recur` does not rewind the path cursor after a failed branch. It misses a/b/c in a(b, b(c)) and returns a/c for a/b/c in a(b(x), c).
- XmlRoundTrip.DashedCommentDropsSpace and XmlRoundTrip.DashedCommentLosesSpace: a comment text opening with '-' and another character loses a space right after them, so "-a b" is read back as "-ab". A failed "-->" attempt at the start leaves whitespace skipping on.
- XmlRender.RenderValue: an element with a value and element children writes a second '>' before the value.
- XmlElements.ClosedByAnyEndTag and XmlElements.CloseNameNotCompared: the reader accepts any end tag as the close of the current element; the name is not compared.
- XmlElements.ShortTagRefused: a start tag whose text between '<' and '>' is shorter than three characters, such as `<a>`, is refused.
- XmlElements.Cleared: `child_nodes_.clear()` removes only the head child (see LinkedLists.LinkedList.Clear).
- JsonReading.NestedEndsEarly and JsonReading.OuterEndsWithInner: the '}' of a nested object whose last member has a number or Boolean value stays in the stream, and it ends the enclosing object too, so in `{"a": {"b": 1}, "c": 2}` the member "c" is not read. When the nested object's last value is a string, its '}' is consumed and the enclosing object goes on.
- JsonReading.ListWithoutSpaceFails: in `["v1","v2"]` the `discard(1)` after the comma takes the opening quote of the second string, and the list fails. JsonReading.ListWithSpaceReads shows that `["v1", "v2"]`, with one character after the comma as the serializer writes it, reads both strings.
- JsonReading.EmptyObjectRejected and JsonReading.EmptyListRejected: `{}` and `[]` are not read.
- JsonReading.BoolReadsAsNumber: a Boolean is written as "1" or "0", which the reader takes for a number, so a Boolean comes back as a Number or is refused.
- LinkedLists.LinkedList.Insert: an insert before the head is not reachable from the head.
- RedBlackTrees.RemoveFreesSubstitute: `remove` deletes the node it unlinks, and the node destructor frees that node's child, which has just taken its place. After insert 2, insert 1 and remove(find(2)), the root is the freed node 1. RedBlackTrees.RedBlackTree.Remove sets `dangling` in every such case.
