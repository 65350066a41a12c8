# A verified model of the boot loader's memory, parsing and device-tree code

GenericBooter is an ARM boot loader for Darwin. It reads an XML description of the device tree, builds the tree,
flattens it for the kernel, and does so on top of its own heap, its own memory and string routines and its own
parsers. This project models that code in Dafny, in the form the source has (classes whose methods update their
fields, loops over arrays, recursion where the source recurses), and proves what it is for.

| files | source | what is proved |
|---|---|---|
| `Bits`, `SizeClasses`, `FreeLists`, `Blocks`, `HeapRuns`, `Headers`, `PoolSteps`, `Tlsf` | `tlsf.c` | The two-level segregated-fit heap. The class `Tlsf` holds the pool words, the matrix and the bitmaps; a ghost map of blocks and a ghost listing of free blocks are tied to them by `Valid()`, which every call keeps. |
| `JsmnSpec`, `JsmnLexemes`, `JsmnParser`, `JsmnNesting`, `JsmnGrammar`, `JsmnFailures` | `json_parser.c` | The in-place parser refines a pushdown machine with an explicit stack; its tokens nest; it can be resumed; it succeeds on exactly the texts of a grammar given character by character, and calls exactly the others cut short or invalid. |
| `Bytes`, `FlatTree`, `FlatLayout`, `NodePools`, `TreePaths`, `DeviceTree` | `device_tree.c` | The pooled, linked tree, its flat form with back-patched counts and where each byte of it lies, a reader that recovers the tree from the bytes, and path lookup. |
| `XmlText`, `XmlDocuments`, `XmlPools`, `XmlTags` | `xml.c` | The parser that writes into the text it reads equals a pure parser of the unmodified text, which reads back every well-formed document as it is written; tags and symbol references are conserved. |
| `BootTree`, `Descriptions` | `bootx.c` | From an XML text to the device tree, and what every property of it holds. |
| `MachineWords`, `StringCompare`, `BlockCopy` | `strcmp.S`, `strncmp.S`, `bcopy.S` | The word-at-a-time routines equal their byte specifications for every alignment and overlap. |
| `Numbers` | `libc_stub.c`, `printf.c` | Exact overflow tests in number conversion, and a printer that the parser undoes. |

How the state is represented:

- In `Tlsf`, offsets count from the start of the pool, a pool word is stored at its byte address (only multiples of
  4 are used), and `tlsf_t` is the other fields of the class. Sizes and offsets are 32-bit words; the bitmaps are
  `bv32`.
- In `DeviceTree` and `Xml` a record is named by its index in allocation order, and NULL is -1. Whether `malloc`
  supplies another block of records is left open (a nondeterministic choice); the ghost flag `starved` says that
  it once did not.
- Registers and addresses in the assembly routines are natural numbers, memory is a sequence or array of bytes,
  and words are `bv32`.
- A C string outside `xml.c`'s buffer is a sequence without its NUL. `panic` is a precondition that excludes it.

Four results that go against what the code seems to promise:

- `init_memory_pool` lays its area out past the end of the pool for half of all pool sizes: it stays inside exactly
  when the size is 0 to 3 above a multiple of 8 (`PoolSteps.AreaInsidePool`, `PoolSteps.AreaOverrun`).
- `malloc_ex` looks in its tables for a block that covers the request exactly when the size is at most 0x3F000000
  (`PoolSteps.RequestServed`, for every 32-bit size). Just above that `MAPPING_SEARCH` names a row outside the table
  (`PoolSteps.RequestBeyondTable`, at 0x3F000008); near 2^32 its sum wraps, and it asks the table for a block of 0 bytes
  (`PoolSteps.RequestWrapped`, at 0xFFFFFFF0). `SizeClasses.SearchInTable` says exactly which rounded requests name
  a class in the table.
- `FixDataMatchingTag` is to "add a '\0' at the end of the tag matching 'tag'" (xml.c:484). It also leaves the one
  `GetNextTag` has put over the `>` of every tag it passes, so the data is the text in front of the matching end tag
  exactly when no other tag comes first (`XmlText.DataEndsAtEndTag`). In `<key>a<b>c</key>` the name read is `a<b`
  (`XmlText.NestedKey`).
- `strtol` and `strtoul` put the end pointer where section 7.20.1.4 of ISO C99 puts it, up to the blanks skipped,
  exactly when a `0x` read as a prefix has a digit behind it and no `0b` is read as one (`Numbers.EndsByStandard`). For
  `0xg` in base 16 they return the beginning instead of the position behind the 0 (`Numbers.MarkWithoutDigit`).

## Model

| member | source | states |
|---|---|---|
| Bits.SetBitExact | tlsf.c:287-290 | setting a bit sets that bit and no other, for every word |
| Bits.ClearBitExact | tlsf.c:292-295 | clearing a bit clears that bit and no other |
| Bits.LsBitExact | tlsf.c:269-276 | the table-driven search finds the lowest set bit of every 32-bit word, and -1 for 0 |
| Bits.MsBitExact | tlsf.c:278-285 | the same for the highest set bit: the integer logarithm |
| SizeClasses.InsertExact | tlsf.c:317-327 | a size lies between the least size of the class it is filed under and that of the next |
| SizeClasses.ClassesPartition | tlsf.c:317-327 | the 768 classes partition the sizes below 2^30: a size is in one class only |
| SizeClasses.ClassOrder | tlsf.c:317-327 | a size reaches the least size of a class exactly when its own class is not below it |
| SizeClasses.SearchExact | tlsf.c:297-315 | while the sum does not wrap, the request is rounded up, by at most 1/32, to the least size of the class that is named |
| SizeClasses.SearchLeast | tlsf.c:297-315 | likewise, no lower class starts at the request or above it, so rounding skips no class needlessly |
| SizeClasses.SearchWraps | tlsf.c:297-315 | for a request above 0xFC000000 the 32-bit sum wraps: the rounded request is 0 and the class is that of what is left of the sum |
| SizeClasses.SearchInTable | tlsf.c:297-315 | for every 32-bit request, the class named is in the table if and only if the request is at most 0x3F000000 or has wrapped to a sum of at least 64 |
| FreeLists.PushLinked | tlsf.c:378-386 | linking a block in front keeps every list doubly linked, newest first |
| FreeLists.UnlinkLinked | tlsf.c:361-376 | unlinking any block keeps the lists linked and removes just that block |
| FreeLists.ListsExact | tlsf.c:348-386 | the walk from each head meets exactly the blocks listed in that class, once each, newest first |
| FreeLists.SetMapped | tlsf.c:378-386 | after a push each bitmap bit again says whether its list, or its row, is non-empty |
| FreeLists.ClearMapped | tlsf.c:348-376 | after the last block of a list has gone, the same |
| FreeLists.FoundInRow | tlsf.c:329-346 | the masked lowest bit leads to the first non-empty list at or after the start in its row |
| FreeLists.FoundInLaterRow | tlsf.c:329-346 | otherwise the two lowest bits lead to the first non-empty list of a later row |
| FreeLists.NotFound | tlsf.c:329-346 | with no bit left, every list from the start on is empty |
| Blocks.TakeLive | tlsf.c:713-745 | allocation makes exactly one more block live and gives away at most 8 spare bytes |
| Blocks.TakeCoalesced | tlsf.c:713-745 | allocation keeps free blocks apart |
| Blocks.ReleaseLive | tlsf.c:753-789 | freeing makes exactly the freed block not live and leaves the others as they are |
| Blocks.ReleaseCoalesced | tlsf.c:753-789 | merging both ways leaves no two adjacent free blocks |
| Blocks.ResizeLive | tlsf.c:806-862 | resizing in place changes no other live block |
| Blocks.ResizeCoalesced | tlsf.c:806-862 | resizing in place leaves no two adjacent free blocks |
| Blocks.BlocksFillArea | tlsf.c:415-437 | the chain of blocks from the first header meets every block, and sizes plus headers add up to the area |
| Blocks.NothingLive | tlsf.c:753-789 | a heap without live blocks is one free block over the whole area |
| Blocks.FreeingAllRestores | tlsf.c:753-789 | freeing all live pointers, in any order, restores the single free block of initialisation |
| HeapRuns.StepKeeps | tlsf.c:690-878 | taking, releasing and resizing in place each keep the tiling, the coalescing and both ends of the area |
| HeapRuns.CallIsSteps | tlsf.c:690-878 | each call changes nothing, or is one of these steps, or two in turn when realloc_ex moves |
| HeapRuns.CallKeeps | tlsf.c:690-878 | so every call keeps them |
| HeapRuns.RunExtended | tlsf.c:690-878 | what the methods of `Tlsf` promise of a call makes a run one state longer |
| HeapRuns.RunInvariant | tlsf.c:690-878 | in every state of every run from initialisation: tiling, no adjacent free blocks, constant sum, and the initial block when nothing is live |
| Headers.TagParts | tlsf.c:139-157 | a size word with its two flag bits gives back size and flags, and each flag can be set alone |
| Headers.MarkEncoded | tlsf.c:727-745 | writing the two tags of a block and its successor encodes the block's new state |
| Headers.MergeEncoded | tlsf.c:764-781 | rewriting one size word and one back pointer encodes the merged block |
| Headers.SplitEncoded | tlsf.c:728-738 | the words written for a split encode both parts |
| Headers.HeaderIsNoLink | tlsf.c:348-386 | a free-list link is never stored over a header of any block |
| Headers.LinksKeepEncoded | tlsf.c:348-386 | list operations leave every header as it is |
| PoolSteps.FirstHeadIsBest | tlsf.c:329-346 | the head the search returns is a free block of the lowest class that fits |
| PoolSteps.EmptyMeansNoneFits | tlsf.c:329-346 | empty lists from the class on mean that no free block reaches the rounded size |
| PoolSteps.MetaKeepsPayloads | tlsf.c:690-789 | stores to headers and links of free blocks touch no other live payload |
| PoolSteps.LivePayloadsDisjoint | tlsf.c:690-789 | live payloads are disjoint, aligned to 8 and inside the area |
| PoolSteps.RequestServed | tlsf.c:698-703 | for every 32-bit size: the class searched from is in the table and the rounded request covers the size if and only if the size is at most 0x3F000000 |
| PoolSteps.RequestBeyondTable | tlsf.c:698-703 | 0x3F000008 bytes are looked for in a row that the table does not have |
| PoolSteps.RequestWrapped | tlsf.c:698-703 | 0xFFFFFFF0 bytes are looked for in row 19, as 0 bytes; 0xFFFFFFF9 is rounded up to 0 before that |
| PoolSteps.WasteBound | tlsf.c:297-315 | the payload granted for a rounded request r is between r and r + r/32 + 8 |
| PoolSteps.PayloadStore | tlsf.c:145-157 | a client's store into its payload keeps headers and lists intact |
| PoolSteps.MoveReallocated | tlsf.c:863-877 | allocating, copying and freeing amounts to a reallocation that keeps the contents, and to one move of the block map |
| PoolSteps.AreaBehindControl | tlsf.c:173-226 | the fields of tlsf_t take 3180 bytes, the area begins at the next multiple of 8, and the words of a header lie at their offsets |
| PoolSteps.AreaInsidePool | tlsf.c:415-437 | the area laid out ends inside the pool if and only if the pool size is 0 to 3 above a multiple of 8 |
| PoolSteps.AreaOverrun | tlsf.c:415-437 | a pool size for which the area ends four bytes past the pool |
| TlsfAllocator.Tlsf.constructor | tlsf.c:446-491 | initialisation yields a valid heap of one free block and the sentinel |
| TlsfAllocator.Tlsf.ExtractHead | tlsf.c:348-359 | takes the first block off its list; lists, bitmaps and headers stay consistent |
| TlsfAllocator.Tlsf.Extract | tlsf.c:361-376 | takes any listed block off its list |
| TlsfAllocator.Tlsf.Insert | tlsf.c:378-386 | lists a block first in its class |
| TlsfAllocator.Tlsf.FindSuitable | tlsf.c:329-346 | returns the head of the first non-empty list at or after the class, 0 if there is none |
| TlsfAllocator.Tlsf.Malloc | tlsf.c:690-750 | a best-class free block becomes live, split when the rest is large enough; 0, with nothing changed, exactly when no free block reaches the rounded size; other payloads untouched |
| TlsfAllocator.Tlsf.Coalesce | tlsf.c:760-789 | merges a free block with its free neighbours in headers, lists and bitmaps, and lists the result |
| TlsfAllocator.Tlsf.Free | tlsf.c:753-789 | the block becomes free and absorbs its free neighbours; other payloads untouched; NULL is ignored |
| TlsfAllocator.Tlsf.WritePayload | tlsf.c:748 | a client may write anywhere in its payload without harming the heap |
| TlsfAllocator.Tlsf.CopyPayload | tlsf.c:871-875 | the copy into the new block moves the payload and changes nothing else |
| TlsfAllocator.Tlsf.ReallocLive | tlsf.c:792-878 | stays in place exactly when the block, or it and a free successor, suffice; the block map is then the resized one; otherwise moves to a block of the best class, and the map is that of taking one and releasing the other; the first min(old, new) bytes survive |
| TlsfAllocator.Tlsf.Realloc | tlsf.c:792-878 | the whole call: NULL pointer, zero size, failure with nothing changed, and reallocation; always a call in the sense of `HeapRuns` |
| JsmnSpec.StepMonotone | json_parser.c:151-283 | a step that does not run out of tokens is the same with more room |
| JsmnSpec.Resumes | json_parser.c:10-24 | after running out of tokens, continuing with more room ends as a run with that room from the start |
| JsmnParser.Parser.constructor | json_parser.c:289-294 | the state jsmn_init sets |
| JsmnParser.Parser.ParseString | json_parser.c:92-146 | one string step of the machine: token, position and all error cases, with the position restored on failure |
| JsmnParser.Parser.ParsePrimitive | json_parser.c:41-87 | one primitive step of the machine, likewise |
| JsmnParser.Parser.LastOpen | json_parser.c:202-222 | the backward scan finds the top of the implicit stack |
| JsmnParser.Parser.CloseBracket | json_parser.c:179-224 | closes the innermost container if its kind matches, and makes the next open one toksuper |
| JsmnParser.Parser.OpenBracket | json_parser.c:164-178 | opens a container, counted in its parent |
| JsmnParser.Parser.Parse | json_parser.c:151-283 | code, position and tokens are those of the pushdown machine, toksuper is the top of its stack or -1 |
| JsmnParser.ResumesWithLargerArray | json_parser.c:158-173 | a call that reported NOMEM, repeated with a larger array holding the same tokens, ends as one call with that array |
| JsmnNesting.StepNested | json_parser.c:151-283 | every step keeps the tokens in start order, spans nested or disjoint, sizes equal to the number of direct children |
| JsmnNesting.FreshNested | json_parser.c:289-294 | a fresh parser is in such a state |
| JsmnNesting.RunNested | json_parser.c:151-283 | so they are after every call, whatever it returns |
| JsmnLexemes.StringExact | json_parser.c:92-146 | a string ends at the first quote behind single characters and escapes of nine kinds; it is invalid exactly when such a run is followed by another escape, and unterminated exactly when it is followed by the end of the text |
| JsmnLexemes.QuotedIsScanned | json_parser.c:92-146 | any text without NUL, its quotes and backslashes escaped, is scanned to exactly its end |
| JsmnLexemes.ValueExact | json_parser.c:41-87 | an unquoted value is the visible characters up to a separator, a closing bracket or the end; it is invalid exactly when another character comes first |
| JsmnGrammar.RunSpells | json_parser.c:151-283 | a text that spells a document is read as the pre-order of its tokens |
| JsmnGrammar.SuccessReads | json_parser.c:151-283 | whatever is accepted spells a document |
| JsmnGrammar.ParsesDocuments | json_parser.c:151-283 | success if and only if the text spells a document with few enough tokens, and then exactly its tokens |
| JsmnFailures.FailuresExact | json_parser.c:151-283 | with a token for every character: PART exactly when the text can be spelled up to a place where it ends inside a container or a string, INVAL exactly when it can be spelled up to a bracket, escape or character that cannot stand there |
| FlatTree.ReadTreeExact | device_tree.c:223-254 | the flat form of every tree, whatever follows it, is read back as that tree |
| FlatTree.FlatSize | device_tree.c:275-277 | the flat form has exactly the size computed from names, values and counts |
| FlatTree.PropStores | device_tree.c:238-243 | the stores for one property into a zeroed buffer are its padded flat form |
| FlatTree.NodeStores | device_tree.c:233-251 | back-patching the two counts around the contents gives the header in front of them |
| FlatLayout.NodeLies | device_tree.c:223-254 | the flat form of every tree puts each count, name, length, value and padding byte at its literal offset (device_tree.c:13-25) |
| NodePools.WithPropExact | device_tree.c:96-103 | the links DT__AddProperty sets append to one node's properties and change nothing else |
| NodePools.WithChildExact | device_tree.c:145-151 | the links DT__AddChild sets put one empty node in front of its siblings and change nothing else |
| NodePools.RootSize | device_tree.c:223-254 | every allocated node lies in the root's tree exactly once: its flat size is the sum over all records |
| NodePools.PropKeepsBalance | device_tree.c:107-108 | that sum stays what the counters say when a property is added |
| NodePools.ChildKeepsBalance | device_tree.c:152 | and when a node is added |
| DeviceTrees.RoundedMod | device_tree.c:46 | rounding after truncation to 32 bits loses only a multiple of 2^32 |
| DeviceTrees.DeviceTree.constructor | device_tree.c:175-190 | a tree of one node called "/", or none when there is no memory |
| DeviceTrees.DeviceTree.AddProperty | device_tree.c:61-111 | the property comes last on its node; every other property list and all children stay; nothing changes on failure |
| DeviceTrees.DeviceTree.AddChild | device_tree.c:113-156 | the child comes first among its siblings, with its name as its only property |
| DeviceTrees.DeviceTree.FlattenProps | device_tree.c:236-245 | writes exactly the flat properties, in list order, and counts them |
| DeviceTrees.DeviceTree.FlattenNodes | device_tree.c:223-254 | writes exactly the flat form of the node's tree, advances by its size and changes no other byte |
| DeviceTrees.DeviceTree.FlattenDeviceTree | device_tree.c:264-297 | the size from the counters is the size of the root's tree; the buffer holds every byte of it at its offset, reads back as the tree, and is untouched behind it |
| DeviceTrees.DeviceTree.GetName | device_tree.c:299-313 | the C string in the first property called "name", "(null)" without one |
| TreePaths.NoneNamedIn | device_tree.c:299-313 | without a property called "name" a node is called "(null)" |
| TreePaths.FirstNamed | device_tree.c:299-313 | otherwise its name is the first one's value up to the NUL |
| TreePaths.PartsOfJoined | device_tree.c:328-340 | a path of names with slashes between them has those names as parts, a name of more than 30 characters in pieces of 30 |
| TreePaths.ShortNames | device_tree.c:328-340 | names of at most 30 characters are the parts themselves |
| TreePaths.FollowSplit | device_tree.c:328-359 | following a path is following its parts one after the other |
| TreePaths.GrownKeepsPaths | device_tree.c:344-358 | a new first child with a name none of its siblings bears hides no node that any path led to |
| DeviceTrees.DeviceTree.FindNode | device_tree.c:315-361 | without creation, the node the path names; with it, a node the path names afterwards, while every path that led somewhere still leads there, exactly the missing parts are created, and only one old node gets a new child; nothing changes when the path already led to a node; when memory runs out the old nodes are kept all the same, and only a created node that got no name can hide others |
| XmlText.Parse | xml.c:167-213 | the pure parser: every tag takes at least two characters, so the mutual recursion ends inside the text |
| XmlDocuments.ItemParsed | xml.c:167-443 | wherever a well-formed document stands, written with literal tags and any text between them, it is read as itself, with every list turned round, and reading ends behind it |
| XmlDocuments.CutFails | xml.c:167-511 | a well-formed document cut short at any place is refused |
| XmlDocuments.HeadingParsed | xml.c:167-213 | a declaration is passed over, and so is the plist tag |
| XmlText.PassLast | xml.c:488-511 | after the matching end tag the buffer holds the data as a C string, and is the text from there on |
| XmlText.DataEndsAtEndTag | xml.c:488-511 | the data stored is all the text in front of the matching end tag if and only if no other tag comes first |
| XmlText.NestedKey | xml.c:488-511 | in `<key>a<b>c</key>` another tag does: the key is read as `a<b` |
| XmlTags.Xml.GetNextTag | xml.c:447-481 | finds the next tag and overwrites its '>' only |
| XmlTags.Xml.FixDataMatchingTag | xml.c:488-511 | finds the matching end tag of the unmodified text and leaves the data behind it as a C string |
| XmlTags.Xml.XMLParseNextTag | xml.c:167-213 | same result and end as the pure parser on the unmodified text; only NULs are written, only from the start to that end; failure gives back every record and symbol reference |
| XmlTags.Xml.ParseTagList | xml.c:217-264 | the tags of a list end up linked in reverse order |
| XmlTags.Xml.ParseTagKey | xml.c:268-309 | a key with its text and the tag that follows as value |
| XmlTags.Xml.ParseTagData | xml.c:313-423 | a string with its text; other data without it |
| XmlTags.Xml.ParseTagEmpty | xml.c:427-443 | a tag without contents |
| XmlTags.Xml.NewTag | xml.c:515-547 | a record nobody holds; records in use keep their contents |
| XmlTags.Xml.XMLFreeTag | xml.c:551-574 | gives back exactly the records and symbol references of the list, and keeps all others |
| XmlTags.Xml.NewSymbol | xml.c:578-615 | the name is counted once more; symbols stay distinct |
| XmlTags.Xml.FreeSymbol | xml.c:620-646 | the name is counted once less, and its symbol goes with the last reference |
| XmlPools.ReferencedCounted | xml.c:578-615 | reference counts stay equal to the number of tags naming each symbol |
| XmlPools.ReleasedCounted | xml.c:620-646 | the same when a reference is dropped |
| XmlPools.RefillConserved | xml.c:521-541 | a new block of records leaves every record in use or free, once |
| XmlPools.AllGivenBack | xml.c:551-646 | when every tag has been freed, all records are free and no symbol is left |
| BootTree.DocumentOrder | bootx.c:148-210 | at every depth, children come out in the order of the text, properties and array data in the opposite order |
| BootTree.ReadInOrder | xml.c:223-239 | reversing a parsed list again gives the tags in the order they were read |
| BootTree.ArrayToDeviceTreeData | bootx.c:74-123 | the buffer holds the elements' data, one after the other, and has exactly their size |
| BootTree.WalkDeviceTreeNodeChildren | bootx.c:148-171 | each dict of the array becomes a new first child with its whole subtree; all other nodes stay, even without memory |
| BootTree.PopulateDeviceTreeNode | bootx.c:175-210 | the dict's properties come behind and its children in front of the node's own; all other nodes stay, even without memory |
| BootTree.PrepareDeviceTree | bootx.c:352-395 | the tree built from a text is the one its first dict describes, and every tag read is freed again |
| Descriptions.CutArray | bootx.c:74-123 | array data, cut after four bytes for each integer and after the NUL of each string, gives back the elements |
| Descriptions.DictDescribed | bootx.c:135-210 | every tree is what its dict describes as written: one property for each key with a string, integer or plain array, holding the characters and a NUL, four zero bytes, or the elements; one child for each dict under a key that begins with '@' |
| Descriptions.DescriptionFound | bootx.c:376-393 | in a text of declarations, at most one plist tag and a dict, that dict is the one entered |
| Descriptions.RootDescribed | bootx.c:364-386 | the root is called "/" and for the rest is what the dict describes |
| StringCompare.NulTestExact | strcmp.S:84-88 | the three-instruction test is non-zero exactly when the word has a zero byte |
| StringCompare.MaskedWord | strcmp.S:84-90 | with the bytes before the string masked, only the string's own bytes are tested |
| StringCompare.ShiftedWord | strcmp.S:110-112 | two neighbouring words shifted together are the word at the offset between them |
| StringCompare.OneAnswer | strcmp.S:30-32 | at most one result satisfies the specification |
| StringCompare.SkipStringWords | strcmp.S:75-121 | the word loop only skips equal, non-NUL characters and unwinds its pointers exactly |
| StringCompare.Strcmp | strcmp.S:44-135 | the difference of the first characters that are unequal or NUL, for every alignment of both strings |
| StringCompare.SkipWords | strncmp.S:79-135 | the same for strncmp, with the count moving along with the pointers |
| StringCompare.Strncmp | strncmp.S:44-154 | that difference within the first n characters, otherwise 0 |
| BlockCopy.CopyHead | bcopy.S:128-143 | the flag-controlled byte, halfword and word copies move exactly the bytes up to the boundary |
| BlockCopy.CopyTail | bcopy.S:113-126 | the flag-controlled copies move exactly the last 0 to 15 bytes |
| BlockCopy.ShiftLoop | bcopy.S:336-342 | the shifted word loop (for 1, 2 or 3 bytes of offset) copies whole words, with the last bytes pending in the carry |
| BlockCopy.Bytewise2 | bcopy.S:160-171 | two bytes at a time, for every count from 1 |
| BlockCopy.MoreThan64Aligned | bcopy.S:75-102 | the 64-byte loop and its fix-up copy everything |
| BlockCopy.SimilarlyUnaligned | bcopy.S:128-158 | alignment to 16 and 32 bytes and the copy that follows |
| BlockCopy.NonWordAlignedForward | bcopy.S:308-326 | all three relative misalignments |
| BlockCopy.Align3Forward | bcopy.S:374-398 | the three-byte offset, priming and finishing included |
| BlockCopy.OverlapSrcLower | bcopy.S:214-237 | overlapping copies to a higher address, by every reverse path |
| BlockCopy.UnalignedReverse | bcopy.S:276-305 | the reverse alignment steps |
| BlockCopy.ForwardStep | bcopy.S:204-211 | a forward block copy never overwrites what is still to be read |
| BlockCopy.BackwardStep | bcopy.S:214-219 | nor does a reverse one |
| BlockCopy.MovedExact | bcopy.S:41 | memory is the old memory with the original source bytes at the destination |
| BlockCopy.Memmove | bcopy.S:40-401 | for every length below 2^31, alignment and overlap, the destination gets the original source bytes and nothing else changes (section 7.21.2.2 of ISO C99) |
| BlockCopy.Bcopy | bcopy.S:35-38 | the same with the arguments swapped |
| Numbers.CutoffExact | libc_stub.c:158-175 | the comparison with cutoff and cutlim says exactly that another digit would exceed the limit |
| Numbers.Accumulate | libc_stub.c:161-178 | the digits' exact value if it is within the limit, and otherwise that it is not; ends behind the last digit |
| Numbers.Strtol | libc_stub.c:105-187 | the exact signed value, or the nearest limit of a long, by the code's own rules for blanks and prefixes; the end pointer behind the last digit, at the beginning without one |
| Numbers.StrtolReads | libc_stub.c:105-187 | for every text cut into blanks, sign, base mark, digits and rest: the value of the digits with its sign, held between -0x80000000 and 0x7FFFFFFF, and the end behind the digits |
| Numbers.StrtoulReads | libc_stub.c:195-256 | likewise the value modulo 2^32, or 0xFFFFFFFF if it takes more than 32 bits |
| Numbers.EveryTextHasPieces | libc_stub.c:121-178 | every text can be cut so |
| Numbers.DigitsExact | libc_stub.c:161-166 | the digits are 0 to 9, a to z and A to Z, each worth its place |
| Numbers.EndsByStandard | libc_stub.c:121-187 | the end pointer is that of section 7.20.1.4 of ISO C99, for the blanks the code skips, if and only if a 0x read as a prefix has a digit behind it and no 0b is read as one |
| Numbers.MarkWithoutDigit | libc_stub.c:121-187 | for 0xg in base 16 it is not: the beginning instead of behind the 0 |
| Numbers.Strtoul | libc_stub.c:195-256 | the exact value or ULONG_MAX; a minus sign negates modulo 2^32 |
| Numbers.Ui2a | printf.c:58-74 | for bases 2 to 36, a numeral of that value without leading zeros, with exactly as many characters as it has digits, its letters in the case asked for, and a NUL; d never overflows |
| Numbers.WordDigits | printf.c:58-74 | these are at most 32 digits, and at most ten from base 10 on, so that the caller's twelve characters (printf.c:140) are enough |
| Numbers.ReadsWhatIsPrinted | printf.c:58-74 | strtoul reads back, in the same base, exactly what ui2a prints |

## Left out

- TlsfAllocator.Tlsf.Malloc: sizes above 0x3F000000 are excluded by a precondition, because the search then starts outside the table, or with a request that has wrapped to fewer bytes than asked for; `PoolSteps.RequestServed` says that these are exactly the sizes for which it does.
- TlsfAllocator.Tlsf.Realloc: the same bound on the new size, unless the block can stay where it is.
- TlsfAllocator.Tlsf.constructor: pool sizes 4 to 7 above a multiple of 8 are excluded, because the area would overrun the pool (`PoolSteps.AreaInsidePool`); so are areas beyond 2^30 bytes. The shortcut for a pool that already carries the signature (tlsf.c:464-468) is not modelled.
- TlsfAllocator.Tlsf.CopyPayload: `memcpy` is modelled word by word; payload contents are compared as words, which are whole because payloads are multiples of 8.
- tlsf.c: `add_new_area`, `get_new_area`, locks, statistics, debug dumps, `calloc_ex` and the default-pool wrappers.
- HeapRuns.RunInvariant: a run is over the block map. Each of `Malloc`, `Free` and `Realloc` promises that it is a call of such a run (`Call(old(h), h)`), the constructor where runs start; that the words in the pool, the lists and the bitmaps follow the map is `Valid()` of the class, kept by every method.
- json_parser.c: the strict mode and the parent links, which the build leaves out.
- DeviceTrees.DeviceTree.FlattenDeviceTree: writing is specified for names of at most 31 characters and totals below 2^32; the length is exact modulo 2^32 without that. The allocation of the flat buffer is taken to succeed.
- DeviceTrees.DeviceTree.AddChild: adding a second root (a NULL parent after initialisation) is excluded, because it would leave counted nodes outside the tree.
- DeviceTrees.DeviceTree.GetName: values of "name" properties are taken to hold a NUL; the source reads on behind one that does not.
- DeviceTrees.DeviceTree.FindNode: the copy of a created node's name is taken to be allocated.
- device_tree.c: freeing of nodes and properties, `DT__Finalize` and printing; the layout of a pool block (its first record keeps track of the block).
- XmlTags.Xml.XMLParseNextTag: texts in which a `<plist ` tag occurs inside a dict, array or key are excluded, because the caller then uses a stale pointer.
- XmlTags.Xml.NewSymbol: the symbol list is a sequence rather than linked records, and a pointer to a symbol's characters is modelled by the characters; a failing `malloc` ends in `panic`.
- xml.c: `XMLGetProperty`, a plain list search.
- BootTree.PopulateDeviceTreeNode: once a pool request has failed, it promises only that nothing but the end of the node's properties and the front of its children changes; after a failed DT__AddChild the source goes on with a NULL node, while the model stops. The buffers for names and values are taken to be allocated. Dicts on which the source would panic or read a null string are excluded (`BootTree.Fits`).
- BootTree.PrepareDeviceTree: locating the XML image is a parameter; texts in which a plist tag comes first, or next after a known tag that is no dict, are excluded, because the source then looks at a pointer nothing has set or whose record has been freed. The other stages of bootx.c are not modelled.
- StringCompare.Strcmp: memory ends at a word boundary, so that the word around a readable byte can be loaded; addresses do not wrap.
- BlockCopy.Memmove: prefetches, stack frames and the returned registers other than r0.
- Numbers.Strtol: bases other than 0 and 2 to 36 are excluded; the base is a natural number. The code's `isspace` lacks three of the blanks of ISO C99, and the comparison with the standard is for texts without them.
- Assembly variants for ARMv6 (`uqsub8`, `pld`), `strlen.S`, `strchr.S`, `bzero.S`, and the rest of `libc_stub.c` and `printf.c`.
- `image3.c`, `macho_loader.c`, `memory_region.c`, `main.c`, `debug.c` and the start-up code: hardware set-up and short pointer walks.
