# Verified model of the firmware's JSON library and flash image tool

This project models three files of the repository in Dafny and proves what they promise:

- `firmware/libs/cjson/src/cJSON.c` - the parser, both print layouts, the minifier, tree
  comparison and duplication, and the doubly linked child lists;
- `firmware/libs/cjson/src/cJSON_Utils.c` - JSON Pointer (RFC 6901), JSON Patch (RFC 6902),
  JSON Merge Patch (RFC 7396) and the merge sort that the diff and the equality test rely on;
- `firmware/platform/compilation/lodtool.py` - loading, storing and merging flash images.

The code appears in two forms.  The loops, buffers and lists of the source are Dafny methods
and classes; each of them is proved to compute a specification function, or the matching
operation on a sequence.  The theorems - round trips, refinements of the RFCs, invariants over
runs of calls - are lemmas about those functions.  A tree is a value of type `Json`, and
`View` is its meaning: an object becomes a map from folded keys, so that equality of views is
equality up to member order and key case.

One link between nodes decides what later calls do: sorting an object does not clear the `prev`
of the node that it brings to the front, and detaching that node overwrites the `next` of the node
it still points back at.  `ListSort` and `NodeList` show this in memory: the list goes round
for ever afterwards, a deleted node is written to, or a list that the node was moved to is cut off.
A document is therefore a `Tree` of module `Links`, in which every object says what its first
member points back at: a later member, a deleted node, or a node that "move" has put into another
list, which bears a mark.  Detaching such a member is the outcome `Broken`, unless the node lives in
another list and neither of the two has a `next`: then nothing is written that was not there.  The
theorems on `Json` say what happens in every other case, and the modules `LinkedPatch`, `LinkedDiff`,
`LinkedMerge`, `Operands` and `MergeTrips` say when that is.  The parameter `exact` picks this
reading, which is the code's; in the strict one, a tool of the proofs, every such detach is `Broken`,
and `Strays` relates the two.

| file | what it holds |
|---|---|
| `Options`, `CString`, `StringOrder`, `Decimal`, `Utf8`, `Json` | C strings, folding and their order, decimal text, UTF-8, trees and their views |
| `Printing`, `Layout`, `PrintBuffer` | the text of a tree, how formatted text is laid out, the growing buffer and the printers that write into it |
| `Parsing`, `Literals`, `Spellings`, `ParseBuffer` | what the parser computes; string literals by section 7 of RFC 8259, and which of them the printer writes; the parser's loops over its buffer |
| `Tokens`, `Grammar`, `ParseFaults`, `Numbers` | exactly which texts are accepted, and as which trees; exactly where the parser stops at all others; the two fields of a number |
| `RoundTrip` | parsing undoes printing |
| `Minifying`, `Comments`, `MinifyParse`, `MinifyBuffer` | the minifier, its theorems, and the loop over one buffer |
| `NodeList`, `MemberSort`, `SortTies`, `ListSort` | child lists in memory, sorting as a function, what determines it, and sorting by relinking |
| `Ownership`, `ParseOwnership` | who owns which allocation, for delete, duplicate and parse |
| `Compare` | lookup equality, sort-and-walk equality, and why they agree |
| `Pointer`, `FindPointer`, `PointerText` | following, building and encoding pointers; which texts are pointers, and what the code does with others |
| `Rfc6902`, `MoveLaws`, `Patch`, `PatchFaults` | the RFC's operations on views, what they make of a move of the wrong member, `apply_patch`, and its status codes |
| `Diff`, `DiffLaws` | `create_patches`; when there is nothing to patch, and both equality tests on trees of any kind |
| `MergePatch`, `MergeDiff` | `merge_patch` and `generate_merge_patch` |
| `Links`, `MemberLists` | trees that know what first members point back at, and comparing them; the same of the nodes in memory |
| `LinkedPatch`, `LinkedRun`, `LinkedDiff`, `LinkedMerge` | applying patches and merge patches to such trees, and when this breaks a list |
| `Strays`, `MovedNodes`, `Marks` | first members that point at a node in another list: when they matter, a family of runs that makes them, and marks that name one node each |
| `Operands`, `MergeTrips` | what the two generators leave of the trees they were called with; both round trips in terms of the operands |
| `Documents` | the loops of `cJSON_Utils.c` that edit a document, append to a patch list, or compare |
| `Lod`, `LodVerdicts`, `LodFile`, `LodMerge` | the image's text form, which files are loaded, the class `LOD`, `dual_merge` |

A `char` stands for one byte.  `size_t` is 32 bits wide, as in `firmware/include/std_inc/stddef.h:17`.

Where the code and its own documentation disagree, the model follows the code:

- `encode_string_as_pointer` and `decode_pointer_inplace` do not implement section 3 of
  RFC 6901 for names with `/` or `~`; `EncodedRight` and `DecodeInverts` say exactly when they do.
- `decode_array_index_from_pointer` tests the first character instead of the current one;
  `DecodeIndexRight` says exactly when its result is the index of RFC 6901.
- `apply_patch` performs some operations that RFC 6902 forbids: on array tokens that are no index
  (`EmptyTokenRemoves`), and a "move" into a child of what is moved (`MovesIntoOther`).  Case
  sensitively it still detaches ignoring case, so that "remove", "replace" and "move" can take another
  member than the one that is meant.  It refuses every "copy" and "move" onto the whole document
  (`RootRefused`), and a case-sensitive "test" of two values that it sorts differently.
  `ApplyRefines` says exactly when it is right, whether it returns 0 or fails.
- A path that does not begin with '/' is no pointer of RFC 6901, but is accepted: only what follows
  its last '/' counts (`StrayPath`).  A '~' that begins no escape makes a token that names no member
  (`BadEscapeNames`), but is taken as it stands at the end of a path (`BadEscapeDecodes`).
- `sort_list` merges with case folding in both modes; `CaseSensitiveSortRight` says for which
  keys the case-sensitive sort sorts, and `AgreeingAligned` for which trees "test" is right.
- `sort_list` leaves the `prev` of a node that comes to the front, so that a "test" can break a
  later operation (`TestBreaks`), also in the list that a "move" has taken the node to
  (`MovedNodeCutsOff`), but need not (`MovedNodeSpares`).  `RunContent` says exactly when a run is
  broken; `TreeRoundTrip`, `PatchInPlace`, `MergeBreaks` and `MergeInPlace` say when a round trip or
  a merge is, in terms of the trees.
- `generate_merge_patch` sorts with folding and walks with `strcmp`; `MergePatchRoundTrip` says
  exactly when its patch is right, and `MixedCaseWrong` gives two objects for which it is not.
- The parser accepts more than RFC 8259: any byte up to a space is a blank, numbers may have leading
  zeros, a point without digits behind it or none in front of it behind a minus, literals may hold
  control characters, and a `\u` without hexadecimal digits is a NUL.  `AcceptsExactly` is the grammar.
- The minifier takes "/*/" for a whole comment (`SlashDropped`).
- The help text of `lodtool.py` says that the boot sector of the output follows the platform image;
  `BootSectorStored` says exactly when it reaches the stored file.

## Model

| member | source | states |
|---|---|---|
| RoundTrip.ParseInvertsPrint | firmware/libs/cjson/src/cJSON.c:1020-1097 | for every tree without raw nodes, parsing either print layout consumes the whole text and gives the tree back, up to the nesting limit, and rejects every deeper tree; the two fields of numbers come back exactly when they agreed |
| RoundTrip.TextParses | firmware/libs/cjson/src/cJSON.c:1232-1284 | the same for a value at any depth and in front of any text that a number cannot go on with |
| RoundTrip.NumberTextScans | firmware/libs/cjson/src/cJSON.c:283-360 | the printed text of a whole number of at most 15 digits is read back as that number, and fits the 63 copied characters |
| Literals.ParseSpelling | firmware/libs/cjson/src/cJSON.c:718-844 | every well-formed literal of section 7 of RFC 8259, in any mix of plain characters, escapes, \u units and surrogate pairs, is read as the bytes it denotes |
| Literals.ParseQuoted | firmware/libs/cjson/src/cJSON.c:847-966 | parsing what `print_string_ptr` writes gives the string back |
| Utf8.Utf8RoundTrip | firmware/libs/cjson/src/cJSON.c:655-709 | the bytes written for a code point are decoded to it by an independent decoder after section 3 of RFC 3629, whatever follows |
| Utf8.SurrogatePair | firmware/libs/cjson/src/cJSON.c:620-653 | a well-formed pair stands for the code point that UTF-16 assigns to it |
| ParseBuffer.ReadHex4 | firmware/libs/cjson/src/cJSON.c:560-593 | the digit loop computes the value of four hexadecimal digits, and 0 if one is invalid |
| ParseBuffer.ReadUtf16 | firmware/libs/cjson/src/cJSON.c:597-653 | reads one or two \u units, or fails, as specified |
| ParseBuffer.PutUtf8 | firmware/libs/cjson/src/cJSON.c:655-709 | the loop that writes the last byte first leaves exactly the encoded bytes, and nothing in front of them changes |
| ParseBuffer.FindEnd | firmware/libs/cjson/src/cJSON.c:731-758 | the first pass finds the closing quote if there is one, and counts escapes no two of which start next to each other |
| ParseBuffer.UnescapeInto | firmware/libs/cjson/src/cJSON.c:760-826 | the second pass never writes outside an allocation of the raw length minus the skipped bytes, even when a malformed \u puts the passes out of step, and leaves the unescaped text |
| ParseBuffer.ReadLiteral | firmware/libs/cjson/src/cJSON.c:753-826 | allocation and second pass together give the C string that is specified, or fail where specified |
| ParseBuffer.CopyNumber | firmware/libs/cjson/src/cJSON.c:297-329 | at most 63 number characters are copied, and a terminator is put behind them |
| ParseBuffer.ParseBuffer.SkipWhitespace | firmware/libs/cjson/src/cJSON.c:983-1001 | stops at the first character above a space, or steps back onto the terminator; the offset stays inside the buffer |
| ParseBuffer.ParseBuffer.ParseNumber | firmware/libs/cjson/src/cJSON.c:283-360 | number, offset and integer field as specified, with its three cases written out, or failure without moving |
| Numbers.ParsedRight | firmware/libs/cjson/src/cJSON.c:343-354 | in every tree that is parsed, `valueint` is `valuedouble` without its fraction, and 2147483647 or -2147483648 beyond the range of `int` |
| Numbers.ParsesInteger | firmware/libs/cjson/src/cJSON.c:283-360 | the text of every 32-bit integer is parsed with that integer in both fields |
| ParseBuffer.ParseBuffer.ParseString | firmware/libs/cjson/src/cJSON.c:718-844 | text and offset as specified, or failure at the specified offset; a refused allocation fails |
| ParseBuffer.ParseBuffer.ParseValue | firmware/libs/cjson/src/cJSON.c:1232-1284 | tree, offset and restored depth on success, the specified offset on failure; the measure is length minus offset |
| ParseBuffer.ParseBuffer.ParseArray | firmware/libs/cjson/src/cJSON.c:1361-1452 | the same for arrays, with the nesting limit |
| ParseBuffer.ParseBuffer.ParseElements | firmware/libs/cjson/src/cJSON.c:1397-1431 | the loop over elements computes the recursive specification |
| ParseBuffer.ParseBuffer.ParseObject | firmware/libs/cjson/src/cJSON.c:1517-1623 | the same for objects |
| ParseBuffer.ParseBuffer.ParseMembers | firmware/libs/cjson/src/cJSON.c:1551-1602 | the loop over members computes the recursive specification |
| ParseBuffer.ParseWithOpts | firmware/libs/cjson/src/cJSON.c:1020-1097 | terminates on every C string with the verdict, tree and end that `Grammar.AcceptsExactly` and `ParseFaults.RejectsExactly` say; every reported position is below the length, refused allocations included |
| Grammar.AcceptsExactly | firmware/libs/cjson/src/cJSON.c:1020-1097 | where the end is demanded, exactly the texts of the grammar are accepted - maybe a byte order mark, blanks, a value nested at most 1000 deep, blanks - and as the trees that they denote |
| Grammar.AcceptsFront | firmware/libs/cjson/src/cJSON.c:1020-1097 | without that demand, exactly the texts that begin with such a value, up to where it ends |
| Grammar.ValueRead | firmware/libs/cjson/src/cJSON.c:1232-1284 | every value of the grammar is read as its tree, at any depth |
| Grammar.ValueIsSyntax | firmware/libs/cjson/src/cJSON.c:1232-1284 | whatever is read as a value is one of the grammar |
| Tokens.NumberRead | firmware/libs/cjson/src/cJSON.c:283-360 | every number - maybe a minus, digits, a point with digits, an exponent, in 63 characters - is read as its value |
| Tokens.NumberIsSyntax | firmware/libs/cjson/src/cJSON.c:283-360 | whatever is read as a number is one of these, with its value |
| Tokens.Pow10Law | firmware/libs/cjson/src/cJSON.c:331-335 | the power of ten that shifts the digits |
| Tokens.LiteralRead | firmware/libs/cjson/src/cJSON.c:718-844 | every literal that the first pass closes and the second one can take is read as its text, malformed units included |
| Tokens.LiteralIsSyntax | firmware/libs/cjson/src/cJSON.c:718-844 | whatever is read as a literal is one of these |
| Spellings.EscapeTable | firmware/libs/cjson/src/cJSON.c:777-800 | the escapes of section 7 of RFC 8259 and no others |
| Spellings.HexTable | firmware/libs/cjson/src/cJSON.c:560-593 | hexadecimal digits in either case |
| Spellings.Hex4Reads | firmware/libs/cjson/src/cJSON.c:560-593 | four of them are read as one number |
| ParseFaults.RejectsExactly | firmware/libs/cjson/src/cJSON.c:1020-1097 | the parser stops at a position if and only if there is a fault: no value, a minus without digits, a bracket too deep, a literal that is open or has a bad escape, no comma, colon, key or closing bracket, or text behind the end, in front of which everything is as it should be |
| ParseFaults.FaultStops | firmware/libs/cjson/src/cJSON.c:1232-1284 | every fault stops the parser where it is seen |
| ParseFaults.FaultOf | firmware/libs/cjson/src/cJSON.c:1232-1284 | every value that is not read has one |
| ParseFaults.PositionOf | firmware/libs/cjson/src/cJSON.c:1073-1094 | the reported position counts the characters in front of the fault, or one less at the very end |
| Parsing.ParseValue | firmware/libs/cjson/src/cJSON.c:1232-1284 | a successful call strictly advances and stays in front of the terminator |
| Parsing.ErrorPosition | firmware/libs/cjson/src/cJSON.c:1073-1094 | the error position lies in the string or on its terminator |
| PrintBuffer.PrintBuffer.Ensure | firmware/libs/cjson/src/cJSON.c:393-478 | room for the request and one more byte, the written prefix kept across growth; it fails only for lack of room, for a refused allocation, or beyond INT_MAX |
| PrintBuffer.PrintBuffer.UpdateOffset | firmware/libs/cjson/src/cJSON.c:481-491 | moves the offset behind the text that starts at it |
| PrintBuffer.PrintBuffer.PrintStringPtr | firmware/libs/cjson/src/cJSON.c:847-966 | writes exactly the escaped string in quotes and a terminator, into exactly the length counted before |
| PrintBuffer.PrintBuffer.CountEscapes | firmware/libs/cjson/src/cJSON.c:875-903 | the count of extra characters is the length of the escaped text minus the length of the string |
| PrintBuffer.PrintBuffer.PutAll | firmware/libs/cjson/src/cJSON.c:923-961 | the escaping loop writes the escaped text and touches nothing before it |
| PrintBuffer.PrintBuffer.PrintValue | firmware/libs/cjson/src/cJSON.c:1287-1358 | writes exactly the text of the node behind what was there, with two bytes to spare; a printable node fails only where the text does not fit |
| PrintBuffer.PrintBuffer.PrintArray | firmware/libs/cjson/src/cJSON.c:1455-1514 | the same for arrays, in both layouts |
| PrintBuffer.PrintBuffer.PrintObject | firmware/libs/cjson/src/cJSON.c:1626-1737 | the same for objects, in both layouts |
| PrintBuffer.PrintPreallocated | firmware/libs/cjson/src/cJSON.c:1212-1229 | succeeds if and only if there is no invalid node and the length is at least the text's plus 2, and then the buffer starts with the text and a terminator |
| PrintBuffer.PrintBuffered | firmware/libs/cjson/src/cJSON.c:1182-1210 | the same text from any positive initial size; failure only for a negative size, an invalid node, a refused allocation or a text over the limit |
| PrintBuffer.Print | firmware/libs/cjson/src/cJSON.c:1107-1169 | the text and its terminator in a block of exactly that size |
| Layout.FormattedLaid | firmware/libs/cjson/src/cJSON.c:1626-1737 | in the formatted text of every tree each member begins a line with a tab for every bracket that is open, and so does the closing bracket of an object with one less; a tab stands behind every colon, a space behind every comma in an array, and no other space outside literals |
| Spellings.PrintShortest | firmware/libs/cjson/src/cJSON.c:847-966 | no literal of section 7 of RFC 8259 that denotes a string is shorter than the one that is printed |
| Spellings.PrintStrict | firmware/libs/cjson/src/cJSON.c:847-966 | what is printed is such a literal, without capitals among its digits |
| PrintBuffer.TextNulFree | firmware/libs/cjson/src/cJSON.c:1287-1358 | the text of a tree of C strings contains no terminator |
| Minifying.MinifyLinksLayouts | firmware/libs/cjson/src/cJSON.c:2649-2717 | minifying the formatted print gives the unformatted print |
| Comments.LineDropped | firmware/libs/cjson/src/cJSON.c:2677-2684 | a double-slash comment is dropped up to its line feed or the end of the text |
| Comments.BlockDropped | firmware/libs/cjson/src/cJSON.c:2685-2693 | a comment between its marks is dropped, whatever is in it but its end |
| Comments.SlashDropped | firmware/libs/cjson/src/cJSON.c:2685-2693 | "/*/" is a whole comment: its star serves both marks |
| Comments.MinifiedExactly | firmware/libs/cjson/src/cJSON.c:2649-2717 | exactly the rows of blanks, comments, literals and other characters can be minified, and what is left is what they hold besides blanks and comments |
| Comments.CommentsMakeNoDifference | firmware/libs/cjson/src/cJSON.c:2649-2717 | texts that differ only in blanks and comments are minified to the same text |
| MinifyParse.MinifyKeepsTree | firmware/libs/cjson/src/cJSON.c:2649-2717 | of any text that the parser accepts in full the minified text exists, stays inside the buffer, and is parsed in full to the same tree |
| MinifyParse.ValueMinified | firmware/libs/cjson/src/cJSON.c:2649-2717 | the same for a value in front of a rest that is minified already |
| MinifyParse.UnescapeLocal | firmware/libs/cjson/src/cJSON.c:760-826 | the second pass over a literal does not depend on anything behind its closing quote |
| MinifyBuffer.MinifyInPlace | firmware/libs/cjson/src/cJSON.c:2649-2717 | one buffer read at one index and written at an earlier one: it stays inside exactly when every literal and comment is closed, and then starts with the minified text |
| NodeList.Parent.GetArrayItem | firmware/libs/cjson/src/cJSON.c:1763-1780 | the node at an index, or NULL behind the end |
| NodeList.Parent.Append | firmware/libs/cjson/src/cJSON.c:1864-1891 | appends to the sequence of nodes, keeps the list well formed, and changes nothing about the first node pointing back |
| NodeList.Parent.DetachItemViaPointer | firmware/libs/cjson/src/cJSON.c:2091-2119 | removes the node from the sequence and unlinks it; the rest is a chain if and only if the node was not a first one that pointed back into the list; if it did, the list goes round for ever, and if it pointed at a node outside, deleted or in another list, the `next` of that node is overwritten |
| NodeList.DetachAcross | firmware/libs/cjson/src/cJSON.c:2091-2119 | detaching the first node of one list while it points back at a node of another: both are lists of their nodes afterwards if and only if neither of the two nodes had a `next` |
| NodeList.Parent.Detach | firmware/libs/cjson/src/cJSON.c:2121-2129 | the node at an index taken out of a well-formed list, or NULL and no change |
| NodeList.Parent.Insert | firmware/libs/cjson/src/cJSON.c:2161-2188 | inserts at an index, appends behind the end, ignores a negative index, and keeps the list well formed |
| NodeList.Parent.InsertInside | firmware/libs/cjson/src/cJSON_Utils.c:673-708 | inserts at an index up to the length and refuses any other |
| NodeList.Parent.ReplaceItemViaPointer | firmware/libs/cjson/src/cJSON.c:2190-2223 | puts another node in the place of one and unlinks that one |
| NodeList.Parent.Replace | firmware/libs/cjson/src/cJSON.c:2225-2233 | the same by index, without effect outside the list |
| NodeList.Run | firmware/libs/cjson/src/cJSON.c:2091-2223 | any run of append, insert, detach and replace calls leaves a well-formed list of exactly the nodes that the run adds up to, and every other node unlinked |
| NodeList.DetachUndoesInsert | firmware/libs/cjson/src/cJSON.c:2161-2188 | detaching what was just inserted restores the list |
| MemberSort.SortPermutes | firmware/libs/cjson/src/cJSON_Utils.c:465-573 | sorting never adds, drops or changes a member |
| MemberSort.SortSorts | firmware/libs/cjson/src/cJSON_Utils.c:465-573 | with case folding the result is in non-decreasing order of lower-cased keys |
| MemberSort.SortStrict | firmware/libs/cjson/src/cJSON_Utils.c:465-573 | with distinct keys the order is strict |
| MemberSort.SortKeepsView | firmware/libs/cjson/src/cJSON_Utils.c:575-582 | sorting an object does not change its meaning, in either mode |
| MemberSort.CaseSensitiveSortRight | firmware/libs/cjson/src/cJSON_Utils.c:465-573 | the case-sensitive sort sorts every list over a set of keys if and only if byte order and folded order agree on every two of them |
| MemberSort.SortFollows | firmware/libs/cjson/src/cJSON_Utils.c:465-573 | sorting looks at keys only: whatever hangs on the members moves as their positions do |
| MemberSort.FirstStaysByKey | firmware/libs/cjson/src/cJSON_Utils.c:575-582 | with distinct keys, the node that was first stays first exactly if the first key of the sorted list is its key |
| SortTies.SortDetermined | firmware/libs/cjson/src/cJSON_Utils.c:465-573 | ignoring case, the sorted list is the one list with non-decreasing keys in which members with one key stand in reverse |
| SortTies.ByteOrderStays | firmware/libs/cjson/src/cJSON_Utils.c:479-488 | the case-sensitive sort leaves every list alone that is in strict byte order |
| SortTies.OtherOrderMerges | firmware/libs/cjson/src/cJSON_Utils.c:490-572 | any other list is split in the middle and merged ignoring case, the second half first where keys are equal |
| MemberSort.MembersLand | firmware/libs/cjson/src/cJSON_Utils.c:465-582 | where sorting brings each member to, and which one it brings to the front |
| ListSort.SortList | firmware/libs/cjson/src/cJSON_Utils.c:465-573 | terminates, and relinks the nodes into the order of the sorting function with every non-head `prev` pointing to its predecessor; the head keeps the `prev` it had |
| ListSort.Merge | firmware/libs/cjson/src/cJSON_Utils.c:513-572 | merges two separate chains into one, in the order of the merging function |
| ListSort.FindMiddle | firmware/libs/cjson/src/cJSON_Utils.c:490-502 | two pointers find the node at half the length, rounded up |
| ListSort.IsAscending | firmware/libs/cjson/src/cJSON_Utils.c:479-488 | the walk decides whether the list is strictly ascending already |
| ListSort.Cut | firmware/libs/cjson/src/cJSON_Utils.c:503-507 | cutting one `next` leaves two separate chains |
| ListSort.SortObject | firmware/libs/cjson/src/cJSON_Utils.c:575-582 | the nodes in the order of the sorting function, linked both ways; the first one points back afterwards if and only if it did before or has not been first, and then at the node that was in front of it, whose new place is given |
| ListSort.SortThenDetach | firmware/libs/cjson/src/cJSON_Utils.c:575-582 | sorting and then detaching the first member leaves a well-formed list if the first member has stayed first; otherwise walking along the list never ends |
| MemberLists.DetachMember | firmware/libs/cjson/src/cJSON.c:2091-2119 | in memory, detaching a member leaves the first one pointing at what the model of documents says |
| MemberLists.AppendMember | firmware/libs/cjson/src/cJSON.c:1864-1891 | the same for a member at the end |
| MemberLists.SortMembers | firmware/libs/cjson/src/cJSON_Utils.c:575-582 | the same for sorting |
| Ownership.Memory.Delete | firmware/libs/cjson/src/cJSON.c:231-252 | frees every owned node, string and key once, and nothing else |
| Ownership.Duplicate | firmware/libs/cjson/src/cJSON.c:2570-2647 | whichever allocation is refused, exactly what was in use before is in use afterwards; a copy has its own blocks and the content of the original |
| Ownership.CopyChildren | firmware/libs/cjson/src/cJSON.c:2614-2637 | a failure in the middle of the children releases the node with the children copied so far |
| ParseOwnership.Parse | firmware/libs/cjson/src/cJSON.c:1020-1097 | a failed parse, for whatever reason, leaves exactly the blocks in use that were in use before, and a tree owns every new block; it fails only if the text is rejected or an allocation refused |
| ParseOwnership.ParseArray | firmware/libs/cjson/src/cJSON.c:1361-1452 | the children allocated, or nothing |
| ParseOwnership.ParseObject | firmware/libs/cjson/src/cJSON.c:1517-1623 | children, keys and values allocated, or nothing |
| ParseOwnership.ParseString | firmware/libs/cjson/src/cJSON.c:718-844 | the output is kept on success and released on failure |
| Json.FindIsLookup | firmware/libs/cjson/src/cJSON.c:1792-1818 | lookup of a key is lookup in the object's meaning |
| Json.WithoutKey | firmware/libs/cjson/src/cJSON.c:2136-2148 | detaching a key removes exactly that key from the meaning, and yields its value |
| Json.WithMember | firmware/libs/cjson/src/cJSON.c:1915-1950 | deleting a key and adding a value under it updates the meaning at that key |
| CString.CmpZero | firmware/libs/cjson/src/cJSON_Utils.c:78-104 | comparison is 0 exactly for equal strings |
| CString.CmpOpposite | firmware/libs/cjson/src/cJSON_Utils.c:78-104 | swapping the operands swaps the sign |
| CString.CmpTransitive | firmware/libs/cjson/src/cJSON_Utils.c:78-104 | the comparison is transitive, strictly if one side is |
| StringOrder.CmpIsByteOrder | firmware/libs/cjson/src/cJSON_Utils.c:78-104 | the order is that of the bytes: the front of a string comes before it, and else the lesser byte where two strings part |
| StringOrder.LowerTable | firmware/libs/cjson/src/cJSON_Utils.c:78-104 | which letters are folded to which |
| StringOrder.CompareLoop | firmware/libs/cjson/src/cJSON_Utils.c:78-104 | the loop ignoring case computes the sign of the comparison |
| Compare.CompareAgrees | firmware/libs/cjson/src/cJSON_Utils.c:584-670 | on valid trees without raw nodes, with keys distinct ignoring case and consistent numbers, sort-and-walk equality is lookup equality |
| Compare.CompareJsonIsViewEquality | firmware/libs/cjson/src/cJSON_Utils.c:584-670 | folding `compare_json` is equality of meaning |
| DiffLaws.CompareBlurred | firmware/libs/cjson/src/cJSON_Utils.c:584-670 | on any trees with distinct keys folding `compare_json` is equality of meaning up to the text of raw nodes |
| Compare.CompareSensitive | firmware/libs/cjson/src/cJSON_Utils.c:584-670 | the case-sensitive `compare_json` says equal if and only if the trees mean the same and its sorting leaves their keys in the same order |
| Compare.AgreeingAligned | firmware/libs/cjson/src/cJSON_Utils.c:584-670 | trees that mean the same are sorted alike, if byte order and folded order agree on every two keys of each object |
| Compare.CompareAgreeing | firmware/libs/cjson/src/cJSON_Utils.c:584-670 | for such keys the case-sensitive verdict is equality of meaning |
| Compare.LookupCompareIsViewEquality | firmware/libs/cjson/src/cJSON.c:2819-2942 | `cJSON_Compare` is equality of meaning, in both modes |
| DiffLaws.LookupExactly | firmware/libs/cjson/src/cJSON.c:2819-2942 | on any trees with distinct keys `cJSON_Compare` is the equality of section 4.6 of RFC 6902, but that an invalid node equals nothing |
| Compare.CompareJsonKeeps | firmware/libs/cjson/src/cJSON_Utils.c:636-637 | the sorting during a comparison never changes what either tree means |
| Links.CompareContent | firmware/libs/cjson/src/cJSON_Utils.c:584-670 | on trees with their links, verdict and contents are those of `compare_json` on the trees as values |
| Documents.CompareTrees | firmware/libs/cjson/src/cJSON_Utils.c:584-670 | the loops compute the verdict and what sorting leaves of both trees, first members that point back included |
| Documents.FindItem | firmware/libs/cjson/src/cJSON.c:1792-1818 | the loop finds the first member with the key, or none |
| FindPointer.ComparePointers | firmware/libs/cjson/src/cJSON_Utils.c:107-141 | true exactly when the token up to the next '/' is the encoding of the name by section 3 of RFC 6901, or folds to the same text |
| FindPointer.EncodedLength | firmware/libs/cjson/src/cJSON_Utils.c:144-157 | the length of that encoding |
| FindPointer.EncodeAsPointer | firmware/libs/cjson/src/cJSON_Utils.c:160-182 | what is written over a buffer of any content, byte by byte |
| FindPointer.EncodedRight | firmware/libs/cjson/src/cJSON_Utils.c:160-182 | it is the encoding of the RFC if and only if the name has no tilde and the byte before every written "1" held one already |
| FindPointer.DecodeArrayIndex | firmware/libs/cjson/src/cJSON_Utils.c:259-284 | the digit loop computes the specified index, wrap-around included |
| Pointer.DecodePrinted | firmware/libs/cjson/src/cJSON_Utils.c:259-284 | a printed index is decoded to itself |
| Pointer.DecodeIndexRight | firmware/libs/cjson/src/cJSON_Utils.c:259-284 | exactly when the decoded index is that of section 4 of RFC 6901 |
| Pointer.DecodeIndexReads | firmware/libs/cjson/src/cJSON_Utils.c:259-284 | what is read from any token: every character from '0' on counts as a digit, modulo 2^32, and no token is an index that begins with a character above '9' or with a zero and more |
| FindPointer.GetItemFromPointer | firmware/libs/cjson/src/cJSON_Utils.c:286-331 | the loop finds the node that the recursive resolution finds, or NULL |
| FindPointer.FindPointerFromObjectTo | firmware/libs/cjson/src/cJSON_Utils.c:184-244 | NULL exactly when the search function finds nothing, and its pointer for trees without '/' in keys |
| FindPointer.FindWorks | firmware/libs/cjson/src/cJSON_Utils.c:184-244 | the search succeeds exactly when the target is in the tree, whatever the keys |
| FindPointer.FindPointerRoundTrip | firmware/libs/cjson/src/cJSON_Utils.c:184-244 | NULL exactly when the node is not in the tree, and otherwise the pointer leads back to that very node |
| Pointer.PlainTokenNames | firmware/libs/cjson/src/cJSON_Utils.c:107-141 | a token without escapes names exactly the members with that key, up to folding |
| Documents.DecodePointerInPlace | firmware/libs/cjson/src/cJSON_Utils.c:344-375 | the in-place loop with two positions leaves the specified C string |
| Patch.DecodeInverts | firmware/libs/cjson/src/cJSON_Utils.c:344-375 | exactly when decoding undoes the encoding of RFC 6901 |
| Patch.DecodeFails | firmware/libs/cjson/src/cJSON_Utils.c:352-372 | two names that are decoded to something else |
| PointerText.DecodeExactly | firmware/libs/cjson/src/cJSON_Utils.c:344-375 | what every encoded name is decoded to, character by character |
| Patch.ResolveRefines | firmware/libs/cjson/src/cJSON_Utils.c:286-331 | resolving the encoded tokens of any names in a tree is following the names in the meaning, in both case modes, where every token that meets an array is an index by section 4 of RFC 6901 that fits |
| Patch.ImproperFails | firmware/libs/cjson/src/cJSON_Utils.c:259-284 | where one is not, the RFC leads nowhere |
| Patch.DetachRefines | firmware/libs/cjson/src/cJSON_Utils.c:411-462 | `detach_path` fails only where RFC 6902 has nothing to remove; otherwise it removes and returns what the RFC says if and only if the array tokens are right and the lookup ignoring case finds the member that is meant |
| Patch.AddRefines | firmware/libs/cjson/src/cJSON_Utils.c:945-1002 | the RFC lets a value be added exactly where the code returns 0 and the array tokens are right, and then the results agree |
| Patch.TestRefines | firmware/libs/cjson/src/cJSON_Utils.c:807-812 | in both case modes, "test" returns 0 with right array tokens exactly where section 4.6 of RFC 6902 passes it and sorting puts the keys of both sides in the same order; it changes no meaning |
| Patch.MoveRefines | firmware/libs/cjson/src/cJSON_Utils.c:889-1002 | "move" in both case modes: right if and only if it is proper and confuses nothing; it fails wrongly exactly where `Refuses` says |
| Patch.MoveMistakes | firmware/libs/cjson/src/cJSON_Utils.c:411-462 | a "move" that takes the wrong sibling is right only if both mean the same and the object that holds them is overwritten |
| MoveLaws.TwoMoves | firmware/libs/cjson/src/cJSON_Utils.c:889-1002 | taking one member or another and adding a value each time gives the same document only if the path overwrites their object with the same value |
| Patch.CopyRefines | firmware/libs/cjson/src/cJSON_Utils.c:889-1002 | "copy" is right where it returns 0 with proper tokens, and fails wrongly exactly onto the root |
| Patch.ApplyRefines | firmware/libs/cjson/src/cJSON_Utils.c:787-1014 | every operation, in both case modes, for every patch object whose fields ask for it: where it returns 0, the document is what RFC 6902 says if and only if the array tokens are right, nothing moves into its own child, and no other member answers to a name; where it fails, the RFC succeeds if and only if this was a "copy" or "move" of something onto the root, a "test" of values sorted differently, or a "move" that has taken away the member its path leads through |
| Patch.ApplyExactly | firmware/libs/cjson/src/cJSON_Utils.c:787-1014 | ignoring case, the RFC lets an operation succeed if and only if the code returns 0 and the request is proper, or it is a "copy" or "move" of something onto the root; and where both succeed the results agree |
| Patch.RootRefused | firmware/libs/cjson/src/cJSON_Utils.c:816-1002 | "copy" and "move" of a member onto the root, which the RFC performs, return 9; "move" has lost the member by then |
| PatchFaults.Malformed | firmware/libs/cjson/src/cJSON_Utils.c:787-1014 | every patch that lacks a part fails: status 2 without a path that is text, 3 without one of the six operations, 7 without a value, 4 without a source and 5 for one that is no text, 1 for a "test" without a value, 13 for a "replace" of nothing; the document stays, but for what such a "replace" has removed |
| PatchFaults.TreeMalformed | firmware/libs/cjson/src/cJSON_Utils.c:787-1014 | the same on trees with their links |
| PatchFaults.SuccessIsComplete | firmware/libs/cjson/src/cJSON_Utils.c:787-1014 | every patch that succeeds has all of its parts |
| PatchFaults.FailsWith | firmware/libs/cjson/src/cJSON_Utils.c:787-1014 | a proper request that fails does so with the code that says why - 13 nothing to remove, 5 nothing to move or copy, 9 no container or the root, 11 no index, 10 one too far, 1 a "test" - and leaves the meaning of the document, but that "move" has lost what it took |
| PatchFaults.StrayAdds | firmware/libs/cjson/src/cJSON_Utils.c:939-1002 | a patch that no request stands for, with a path that is no pointer, can succeed all the same |
| PatchFaults.FirstFailureCounts | firmware/libs/cjson/src/cJSON_Utils.c:1016-1043 | a run has the status and the document of its first operation that fails, later ones have no effect, and status 1 if it is no array |
| PatchFaults.RunJoins | firmware/libs/cjson/src/cJSON_Utils.c:1016-1043 | a run behind another goes on where that one has succeeded |
| Patch.EmptyTokenRemoves | firmware/libs/cjson/src/cJSON_Utils.c:259-284 | "remove" with an empty array token, which the RFC forbids, removes the first element |
| Patch.MovesIntoOther | firmware/libs/cjson/src/cJSON_Utils.c:889-921 | a "move" of an element into its own child, which the RFC forbids, puts it into the neighbour |
| PointerText.LegalText | firmware/libs/cjson/src/cJSON_Utils.c:286-331 | the pointers that section 3 of RFC 6901 allows are exactly the texts of lists of names, and each is the text of one list only |
| PointerText.StrayPath | firmware/libs/cjson/src/cJSON_Utils.c:787-1014 | with a path that does not begin with '/', "test" means the whole document, and every other operation means the path that begins at the last '/', or fails without one |
| PointerText.StrayDetach | firmware/libs/cjson/src/cJSON_Utils.c:411-462 | the same for what "move" takes "from" |
| PointerText.BadEscapeNames | firmware/libs/cjson/src/cJSON_Utils.c:107-141 | a token with a '~' that begins no escape names no member of any object |
| PointerText.BadEscapeDecodes | firmware/libs/cjson/src/cJSON_Utils.c:344-375 | at the end of a path it is taken as it stands, if the bad escape comes first |
| Documents.Document.DetachPath | firmware/libs/cjson/src/cJSON_Utils.c:411-462 | splits, resolves, decodes and detaches as specified, or changes nothing; says if a list is torn, and marks a node that lives on while a first member points at it |
| Documents.Document.AddAtPath | firmware/libs/cjson/src/cJSON_Utils.c:945-1002 | document and status code as specified in the exact reading, or a torn list |
| Documents.Document.ApplyOne | firmware/libs/cjson/src/cJSON_Utils.c:787-1014 | document and status code as specified in the exact reading, for every patch, or a torn list |
| LinkedPatch.ApplyContent | firmware/libs/cjson/src/cJSON_Utils.c:787-1014 | one operation tears a list if and only if it detaches a first member that points back, other than one left alone in its object and pointing at the last node of another list; otherwise status and document are those of the operation on values |
| LinkedPatch.RunContent | firmware/libs/cjson/src/cJSON_Utils.c:1016-1043 | a run of patches does what it does on values if and only if no operation that is reached does so |
| LinkedPatch.CleanRun | firmware/libs/cjson/src/cJSON_Utils.c:1016-1043 | a run without "test" on a tree that was parsed or duplicated never does |
| Strays.StrictRun | firmware/libs/cjson/src/cJSON_Utils.c:1016-1043 | a run that never detaches a first member that points back at all is the same run in the exact reading |
| Strays.HomeRun | firmware/libs/cjson/src/cJSON_Utils.c:1016-1043 | without "move", on a document in which no first member points into another list, both readings agree and none ever does |
| MovedNodes.MovedNodeSpares | firmware/libs/cjson/src/cJSON_Utils.c:411-462 | for any two members in the wrong order, after a "test" that succeeds and a "move" of the greater one the lesser one still points at it, and can be removed without harm |
| MovedNodes.MovedNodeCutsOff | firmware/libs/cjson/src/cJSON_Utils.c:411-462 | if a member has been added behind the node that was moved, the same "remove" breaks a list where the RFC succeeds |
| Marks.RunMarks | firmware/libs/cjson/src/cJSON_Utils.c:1016-1043 | over any run a mark names at most one node, so that a first member points at one node only |
| Marks.MergeOneEach | firmware/libs/cjson/src/cJSON_Utils.c:1299-1356 | the same for a merge |
| LinkedDiff.TestBreaks | firmware/libs/cjson/src/cJSON_Utils.c:807-812 | for any two members in the wrong order, a "test" of the object that succeeds, followed by a "replace" of the lesser key breaks the list where the RFC succeeds |
| Documents.Document.ApplyPatches | firmware/libs/cjson/src/cJSON_Utils.c:1016-1043 | operations in order up to the first that fails or tears a list |
| Diff.PatchRoundTrip | firmware/libs/cjson/src/cJSON_Utils.c:1119-1272 | on values, applying the generated patch to any document that means `from` returns 0 and leaves one that means `to` |
| DiffLaws.EmptyPatch | firmware/libs/cjson/src/cJSON_Utils.c:1119-1272 | the generated patch is empty exactly for trees that mean the same |
| LinkedDiff.TreeRoundTrip | firmware/libs/cjson/src/cJSON_Utils.c:1119-1272 | on trees with their links: it returns 0 and leaves what `to` means, unless, where the generator looks into two objects, a first member that points back is removed or replaced as a whole; and then it breaks a list, where no first member points into another one |
| LinkedDiff.CleanNoClash | firmware/libs/cjson/src/cJSON_Utils.c:1119-1272 | this never happens to a tree that was parsed or duplicated |
| Operands.PatchInPlace | firmware/libs/cjson/src/cJSON_Utils.c:1119-1272 | applied to the very tree it was generated from, the patch leaves what `to` means, unless some object's member with the least key was not first, or pointed back, and is removed or replaced; and then it breaks a list, where no first member pointed into another one |
| Operands.SettleKeeps | firmware/libs/cjson/src/cJSON_Utils.c:1197-1198 | generating patches never changes what either operand means |
| Diff.Works | firmware/libs/cjson/src/cJSON_Utils.c:1119-1257 | at any location that means `from`, the generated operations turn that location, and nothing else, into what `to` means |
| Documents.PatchList.CreatePatches | firmware/libs/cjson/src/cJSON_Utils.c:1119-1257 | the loops append exactly the specified patches, and return what sorting leaves of both operands |
| Documents.PatchList.Compose | firmware/libs/cjson/src/cJSON_Utils.c:1074-1112 | appends one patch object with operation, path and value |
| MergePatch.MergeInOrder | firmware/libs/cjson/src/cJSON_Utils.c:1299-1356 | `merge_patch` takes the members of a patch in order, also where a key comes twice, in both case modes, and keeps keys distinct |
| MergePatch.MergeRefines | firmware/libs/cjson/src/cJSON_Utils.c:1299-1356 | with distinct keys it computes the function of section 2 of RFC 7396 on the meaning, in both case modes |
| MergePatch.MergeIdempotent | firmware/libs/cjson/src/cJSON_Utils.c:1299-1356 | applying a patch twice equals applying it once |
| LinkedMerge.MergeContent | firmware/libs/cjson/src/cJSON_Utils.c:1299-1356 | on trees with their links, a merge that breaks nothing is the merge of the values |
| LinkedMerge.MergeBreaks | firmware/libs/cjson/src/cJSON_Utils.c:1299-1356 | it is the merge of the values unless the patch names a first member that points back, in an object that the merge goes into; and then it breaks a list, where no first member points into another one |
| LinkedMerge.DistinctBreaks | firmware/libs/cjson/src/cJSON_Utils.c:1299-1356 | the same for every patch with distinct keys, in both case modes |
| LinkedMerge.CleanMerge | firmware/libs/cjson/src/cJSON_Utils.c:1299-1356 | a merge into a tree that was parsed or duplicated breaks nothing |
| Documents.MergeTrees | firmware/libs/cjson/src/cJSON_Utils.c:1299-1356 | the loop over the patch computes the specified merge in the exact reading, or tears a list where specified |
| Documents.Document.MergeWith | firmware/libs/cjson/src/cJSON_Utils.c:1358-1366 | the document after a merge patch as specified, or a torn list |
| MergeDiff.MergePatchRoundTrip | firmware/libs/cjson/src/cJSON_Utils.c:1368-1444 | on values, merging the generated patch into a document that means `from` gives what `to` means if and only if, for every key that both objects have up to case, the walk does not come to the new member first, and values under keys that it meets at once are equal or right in turn |
| MergeDiff.SoonerByPeaks | firmware/libs/cjson/src/cJSON_Utils.c:1389-1429 | which of two keys the walk comes to first is the lexicographic order of the keys, up to each, that no later key exceeds |
| MergeDiff.LowerCaseRight | firmware/libs/cjson/src/cJSON_Utils.c:1396-1396 | the order is always right for keys that `tolower` leaves alone |
| MergeDiff.MixedCaseWrong | firmware/libs/cjson/src/cJSON_Utils.c:1396-1396 | two objects for which it is not |
| MergeDiff.NullPatch | firmware/libs/cjson/src/cJSON_Utils.c:1436-1441 | the patch is NULL exactly for two objects with the same keys, byte by byte, that mean the same |
| MergeTrips.TreeMergeRoundTrip | firmware/libs/cjson/src/cJSON_Utils.c:1368-1444 | on trees with their links, the round trip holds if the walk's order is right and no object that the merge goes into has a first member that points back and whose key `to` lacks, gives another meaning or brings up at another point of the walk; and only then, where no first member points into another list |
| MergeTrips.HitsDisturb | firmware/libs/cjson/src/cJSON_Utils.c:1368-1444 | the patch that is generated names such a member if and only if the operands have one |
| MergeTrips.GeneratedUpset | firmware/libs/cjson/src/cJSON_Utils.c:1383-1384 | the sorting that generating does disturbs exactly the objects whose least key was not first, or whose first member pointed back |
| MergeTrips.MergeInPlace | firmware/libs/cjson/src/cJSON_Utils.c:1368-1444 | the same for the very tree that the patch was generated from, in terms of both operands as they were before |
| Operands.GenerateKeeps | firmware/libs/cjson/src/cJSON_Utils.c:1383-1384 | generating a merge patch never changes what either operand means |
| Documents.GenerateMergePatch | firmware/libs/cjson/src/cJSON_Utils.c:1368-1444 | the walk computes the specified patch, and returns what sorting and comparing leave of both operands |
| Lod.TotalAnyOrder | firmware/platform/compilation/lodtool.py:27-32 | the sum of the blocks does not depend on the order of visiting them |
| Lod.Hex8Reads | firmware/platform/compilation/lodtool.py:109-112 | a 32-bit word is written in exactly eight digits that read back as the word |
| Lod.LoadInvertsStore | firmware/platform/compilation/lodtool.py:34-114 | for every image with clean attributes and 32-bit bases and words, loading the stored text gives names, attributes and blocks back, and the checksum agrees |
| LodVerdicts.LoadExactly | firmware/platform/compilation/lodtool.py:34-97 | a file is loaded exactly if every line is right behind those before it: one '=' in an attribute, the sum modulo 2^32 of the table so far in a checksum, eight digits behind the mark of a base, and eight digits and an open block for a word |
| LodVerdicts.LoadAccepts | firmware/platform/compilation/lodtool.py:34-97 | the table of such a file holds the last block of each base, from its line to the next base or checksum, and nothing else |
| LodVerdicts.LoadRefuses | firmware/platform/compilation/lodtool.py:34-97 | the first line that is not right decides whether it is a syntax error, a wrong checksum or an exception |
| LodVerdicts.AttrAdds | firmware/platform/compilation/lodtool.py:55-62 | an attribute adds its name to the list and puts its value in the place of an earlier one |
| LodVerdicts.OthersKeepAttrs | firmware/platform/compilation/lodtool.py:63-90 | no other line touches the attributes |
| LodVerdicts.FindsFirst | firmware/platform/compilation/lodtool.py:47-48 | the number of a line is the first row of eight digits, behind the mark if one is asked for |
| LodVerdicts.WrongChecksum | firmware/platform/compilation/lodtool.py:67-70 | a stored image with any other checksum is refused |
| LodVerdicts.WrongWord | firmware/platform/compilation/lodtool.py:67-70 | a stored image with one word changed is refused |
| LodVerdicts.LinesOfOpen | firmware/platform/compilation/lodtool.py:53-53 | the last line need not end in a line feed |
| LodVerdicts.StoredAscending | firmware/platform/compilation/lodtool.py:108-111 | bases are stored in ascending order |
| LodVerdicts.Hex8IsLower | firmware/platform/compilation/lodtool.py:109-112 | digits are stored in lower case |
| LodFile.LOD.Checksum | firmware/platform/compilation/lodtool.py:27-32 | the loops compute the sum modulo 2^32 in any order of the dictionary |
| LodFile.LOD.Load | firmware/platform/compilation/lodtool.py:34-97 | fields and verdict after every line as specified, on success and on failure |
| LodFile.LOD.Store | firmware/platform/compilation/lodtool.py:99-114 | attributes in order, blocks in ascending order and the checksum, or an exception for a name without a value |
| LodMerge.EndAddress | firmware/platform/compilation/lodtool.py:116-122 | the highest end of a block, and 0 without blocks |
| LodMerge.PaddingSucceeds | firmware/platform/compilation/lodtool.py:174-189 | the padding succeeds exactly for an empty gap and for one with both ends on sector borders |
| LodMerge.PaddingTiles | firmware/platform/compilation/lodtool.py:174-189 | the pads lie in the gap, share no address and, if all fit, tile it exactly |
| LodMerge.PadShape | firmware/platform/compilation/lodtool.py:174-189 | a pad holds 0x10000 bytes of 0xff where it begins on such a border and has the room, and else 0x1000 |
| LodMerge.FillGap | firmware/platform/compilation/lodtool.py:174-189 | the loop adds exactly the pads that fit |
| LodMerge.FillingSucceeds | firmware/platform/compilation/lodtool.py:164-189 | once the checks pass, filling succeeds exactly for an empty gap or aligned ends |
| LodMerge.FilledImageReads | firmware/platform/compilation/lodtool.py:169-196 | no block is overwritten, no two overlap, and every address reads as platform word, padding or application word |
| LodMerge.CheckImages | firmware/platform/compilation/lodtool.py:138-167 | the checks in their order, exceptions included |
| LodMerge.CheckPasses | firmware/platform/compilation/lodtool.py:138-167 | the checks pass exactly if the boot sector is the lowest block of the platform and all of the platform ends where the application begins, or before |
| LodMerge.CheckRaises | firmware/platform/compilation/lodtool.py:138-167 | and raise exactly if a value that is asked for is missing or no number, or the application is empty |
| LodMerge.InFlashSets | firmware/platform/compilation/lodtool.py:147-147 | the address is the number with one bit set |
| LodMerge.ReadIntReads | firmware/platform/compilation/lodtool.py:147-147 | both notations of the number are read |
| LodMerge.DualMerge | firmware/platform/compilation/lodtool.py:138-196 | outcome, output and what is left in the application image, which shares its table with the output |
| LodMerge.BootSectorStored | firmware/platform/compilation/lodtool.py:191-194 | the platform's boot sector survives a store and a load exactly when the application image lists the attribute |

## Left out

- ParseBuffer.ParseBuffer.ParseNumber: the branch under `GPRS_CSDK` (`firmware/libs/cjson/src/cJSON.c:331`) leaves the end pointer NULL and then uses it; the model takes the `strtod` branch, on exact reals without rounding, overflow or locale.
- Printing.NumberText: only whole numbers of at most 15 digits have a text; the formats `%1.15g` and `%1.17g` for other numbers, NaN and infinity are not modelled.
- FindPointer.FindPointerFromObjectTo: the text of the pointer is specified only for keys without '/', because the encoder leaves a byte of uninitialised memory in front of every "1" it writes for one.
- Documents.PatchList.CreatePatches: requires keys without '/' and '~', which `encode_string_as_pointer` does not encode by RFC 6901, and at most 2^32 elements in an array; case folding only.
- Documents.GenerateMergePatch: the folding variant only.
- LinkedDiff.TreeRoundTrip: for documents in which a first member points at a node that was moved to another list, a condition under which nothing breaks; whether something does then also depends on where that node is when the patch comes to it, and `LinkedPatch.RunContent` decides it step by step.
- Operands.PatchInPlace: the same.
- LinkedMerge.MergeBreaks: the same.
- LinkedMerge.DistinctBreaks: as `LinkedMerge.MergeBreaks`.
- MergeTrips.TreeMergeRoundTrip: as `LinkedMerge.MergeBreaks`.
- MergeTrips.MergeInPlace: as `LinkedMerge.MergeBreaks`.
- Patch.ApplyRefines: for names as last tokens that the decoder gives back (`Patch.DecodeInverts`), for documents with distinct keys, and for "test" on trees whose two number fields agree.
- PrintBuffer.PrintBuffered: a zero size with hooks that lack a reallocation is excluded, because the source then reads a byte behind an empty block.
- ParseOwnership.Parse: follows the parser's decisions on the text and its allocations; the values of the nodes are in ParseBuffer, not here.
- ListSort.SortList: the key of a node does not change during the sort, and a node carries nothing else.
- Documents.Document.ApplyOne: a "move" whose "from" is not a string is status 5 here; the source hands a NULL pointer to `strlen`.  Running out of memory (status 6 and 8) is not modelled in the tree edits.
- LodMerge.DualMerge: `int(text, 0)` and `int(text, 16)` are modelled for plain decimal, 0x-prefixed and plain hexadecimal digits; signs, underscores, octal and binary prefixes count as an exception.
- What becomes of a document after a list of it is torn: the outcome is `Broken`, and only `ListSort.SortThenDetach` follows one list further.
- The document tree of `apply_patch` and `merge_patch` is edited as a value held by a document object, with the one link that later calls depend on; the node relinking underneath is what `NodeList` and `ListSort` model, and aliasing between documents is not modelled.
- Raw text and reference nodes in the tree theorems: raw text is opaque, and references share ownership; `Ownership` covers both for deletion and duplication.
- The case-sensitive variants of sorting and patch generation on mixed-case keys, where the code does not keep its promise.
- Atomicity of JSON Patch: the header says that `ApplyPatches` is not atomic.
- NULL strings, keys and arguments, and strings longer than `size_t` can count once escaped.
- Names and values of attributes with Unicode spaces beyond those of Latin-1, and carriage returns in image files.
- `remove_bootloader`, which deletes from a dictionary while iterating, the command line and the opening of files in `lodtool.py`.
- The per-type create, is and add helpers, the allocation hooks and `cJSON_SetNumberHelper`.
- SDK headers, device plumbing, demos and displays: foreign calls without a visible implementation, or shallow logic.
