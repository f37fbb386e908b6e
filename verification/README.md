# Verification of the repeater firmware's JSON engine, DNS proxy and configuration store

The firmware answers its web interface with JSON, proxies DNS for its access-point clients and keeps
its configuration in a key/value store. This project models the code behind those three and proves
what it is relied on for. `dafny verify dfyconfig.toml` checks all of it.

**JSON values.** `JsonTree` is the tree as a value; `Meaning` is what it means when the order of
object members is disregarded, in either case mode. `SortList` and `SortedMembers` are the
linked-list merge sort on the heap and what it does to an object, `TreeCompare` the two comparisons,
and `CompareInPlace` the second one as it runs, sorting what it compares; `TreeLikeness` says what
both decide on trees with any numbers. `ChildList` and `DuplicateTree` are the doubly linked child
list, whose head points back at the tail, and the deep copy.

**JSON Pointer and JSON Patch.** `PointerEscape` and `PointerLookup` build and resolve pointers, and
`PointerTokens` resolves any pointer token by token; `Patch` applies patches, `PatchOperations` says
what each operation does, `PatchGen` generates patches, `PatchFrame` shows that an edit below one
child leaves the others alone, `MemberLists` what editing a member list means, and `PatchRoundTrip`
puts them together. `PatchExact` says for a single member added, removed or replaced exactly when
the patch does what it should, and `PatchEmpty` exactly when there is nothing to do.

**JSON Merge Patch.** `Rfc7396` is the MergePatch function of section 2 of RFC 7396 on meanings,
with the smallest patch between two documents; `MergeApply` and `MergeGen` are the merge and the
generator, `MergeOrder` says which members a merge leaves and in which order, and `MergeExact` says
exactly when the generator's two orders lose a member.

**Text.** `Numerals` is the text of a number and `Render` that of a tree, as functions;
`PrintBuffer` writes it into a growing or given buffer. `ParseText` is the parser as a function of
text and offset, `ParseBuffer` the parser that moves an offset through a buffer and unescapes into
an array. `Utf8` and `StringLiteral` say what string literals denote, `StringAccepted` and
`JsonNumber` exactly which literals and numerals are accepted, `JsonGrammar` what it means that a
text spells a tree, `JsonAccepted` that the parser accepts nothing else, `PrintLayout` what printed
text looks like, `NumeralRoundTrip` how printed numbers read back, and `ParseRoundTrip` that parsing
undoes printing. `Minify` is the in-place minifier, `MinifyParse` says when minified text parses the
same, and `MinifyPrinted` and `MinifyExact` what it makes of printed text.

**Network and store.** `DnsCache` is the twenty-slot answer cache over whole runs of the proxy loop,
`DnsPacket` the query parser and the captive-portal answers. `WifiConfig` is the configuration store
with accesses that may fail at any point, `SsidHistory` its list of recent networks, `WifiStart`
what the next start finds in it, and `WifiStore` the functions of the configuration manager, call by
call.

Where the C code changes state (lists, buffers, the cache table, the store) there is a class or a
method with loops, and its postcondition equates the new state with a function of the old one. The
theorems are about those functions.

## What the proofs found

- The in-place decoder of the last path token undoes the escaping only for keys whose escaped form
  keeps every ordinary character in place: `PointerEscape.DecodeUndoesEncode` gives the exact
  condition, and `PatchExact.AddedKeyExact` what it means for a patch. So a key such as `a~b` does
  not survive being added by a generated patch.
- A patch path is always detached ignoring case, also in the case-sensitive mode. A removed or
  replaced member comes out right exactly when that lookup finds it first
  (`PatchExact.RemovedKeyExact`, `PatchExact.ReplacedKeyExact`), so of two keys that differ only in
  case the later one can never be removed (`PatchExact.CaseTwinsLost`).
- The merge-patch generator walks keys by `strcmp` but sorts them, and recurses, ignoring case. A
  removed member comes out right exactly when the two orders agree on it and the key behind it
  (`MergeExact.RemovedMemberExact`); removing "a" from an object with "a" and "B" loses "B" as well
  (`MergeExact.UpperCaseLoses`).
- The minifier takes a literal that ends in an escaped backslash for unfinished
  (`MinifyParse.LiteralCopied`); `MinifyExact.PrintedMinifiedExact` says exactly which printed texts
  come out right.
- In a pointer an empty token counts as the index 0, and a pointer that does not start with a slash
  leads to the whole document (`PointerTokens.PathFollowed`, `PointerTokens.UnrootedPointer`).
- A `\u` with four characters that are not all hexadecimal digits is accepted as a zero byte, and can
  put the two passes over a literal out of step (`StringAccepted.StringExact`).
- Merging the null patch that the generator makes for two equal objects loses the target
  (`MergeGen.MergeRoundTrips`).
- A replace patch without a value fails but has removed the old value
  (`PatchOperations.ReplaceWithoutValue`).
- Printing into a given buffer needs two bytes more than the text, not one:
  `PrintBuffer.PrintPreallocated`. The header `cJSON.h` speaks of five bytes of slack.

## Model

| member | source | states |
|---|---|---|
| Text.CompareStringsOrder | managed_components/espressif__cjson/cJSON/cJSON_Utils.c:83-109 | The sign of the comparison is the dictionary order of the two strings, folded to lower case in the case-insensitive mode; zero exactly for equal folded strings |
| Text.CompareStringsLoop | managed_components/espressif__cjson/cJSON/cJSON_Utils.c:83-109 | The walk over two non-null strings yields the specified difference |
| Text.ToLowerExact | managed_components/espressif__cjson/cJSON/cJSON_Utils.c:83-109 | Case folding changes the twenty-six letters A to Z to a to z and no other character |
| JsonTree.First | managed_components/espressif__cjson/cJSON/cJSON.c:1936-1966 | The first member with the key in the case mode: no earlier member has it |
| JsonTree.LookupLoop | managed_components/espressif__cjson/cJSON/cJSON.c:1936-1966 | The walk over the members stops at that first member, or past the end |
| JsonTree.CompareDoubleExact | managed_components/espressif__cjson/cJSON/cJSON.c:584-588 | On 32-bit integers the relative tolerance decides plain equality |
| JsonTree.ValueIntExact | managed_components/espressif__cjson/cJSON/cJSON.c:388-400 | The integer kept beside a double is less than one away, toward zero, and at the ends of the int range and beyond it is the end |
| JsonTree.DuplicateRecExact | managed_components/espressif__cjson/cJSON/cJSON.c:2774-2858 | A recursive duplicate is the very same tree, and there is one exactly when the nesting stays within CJSON_CIRCULAR_LIMIT |
| SortList.SortPermutes | managed_components/espressif__cjson/cJSON/cJSON_Utils.c:484-593 | Merge sort keeps the multiset of elements |
| SortList.SortOrdered | managed_components/espressif__cjson/cJSON/cJSON_Utils.c:484-593 | Merge sort leaves its elements ordered by compare_strings, in both case modes |
| SortList.MergeOrdered | managed_components/espressif__cjson/cJSON/cJSON_Utils.c:534-590 | Merging two ordered lists gives an ordered list |
| SortList.SortReversesTies | managed_components/espressif__cjson/cJSON/cJSON_Utils.c:484-593 | Elements with equal keys come out in reverse order: the sort is the opposite of stable |
| SortList.IsAscending | managed_components/espressif__cjson/cJSON/cJSON_Utils.c:498-507 | The test of the linked list says whether its keys strictly ascend |
| SortList.Middle | managed_components/espressif__cjson/cJSON/cJSON_Utils.c:509-521 | The two-pointer walk ends at the node in the middle |
| SortList.Split | managed_components/espressif__cjson/cJSON/cJSON_Utils.c:522-527 | Cutting in front of the middle gives two well-linked lists without a common node |
| SortList.MergeStep | managed_components/espressif__cjson/cJSON/cJSON_Utils.c:537-568 | One round moves the smaller head behind the merged nodes; no node is lost or shared, and every link is kept |
| SortList.MergeLists | managed_components/espressif__cjson/cJSON/cJSON_Utils.c:534-592 | Link-by-link merging gives the same nodes in the order of the sequence merge, linked both ways |
| SortList.SortNodes | managed_components/espressif__cjson/cJSON/cJSON_Utils.c:484-593 | sort_list ends with the same nodes (a permutation, none lost or shared), in the order of the sequence sort, every node but the head pointing back at its predecessor |
| SortedMembers.SortedFacts | managed_components/espressif__cjson/cJSON/cJSON_Utils.c:595-602 | sort_object keeps the members and the meaning of an object and makes its keys strictly increasing |
| TreeCompare.CompareLoop | managed_components/espressif__cjson/cJSON/cJSON.c:3057-3180 | The element and member walks compute the specified comparison of two trees without shared nodes |
| TreeCompare.IncludedLoop | managed_components/espressif__cjson/cJSON/cJSON.c:3140-3175 | One member walk decides whether every member has an equal counterpart |
| TreeCompare.CompareSymmetric | managed_components/espressif__cjson/cJSON/cJSON.c:3057-3180 | cJSON_Compare is symmetric on all trees, in both case modes |
| TreeCompare.CompareDecidesMeaning | managed_components/espressif__cjson/cJSON/cJSON.c:3057-3180 | On unique-key trees with 32-bit integers cJSON_Compare holds exactly when the order-free meanings are equal; hence it is an equivalence there |
| TreeCompare.DuplicateComparesEqual | managed_components/espressif__cjson/cJSON/cJSON.c:2774-2858 | Every such tree compares equal to its recursive duplicate, which exists exactly within CJSON_CIRCULAR_LIMIT |
| CompareInPlace.CompareJsonLoop | managed_components/espressif__cjson/cJSON/cJSON_Utils.c:604-690 | The walks over elements and over sorted members compute the specified comparison, and leave both trees with exactly the objects sorted that they came to before they stopped |
| CompareInPlace.PairsLoop | managed_components/espressif__cjson/cJSON/cJSON_Utils.c:656-682 | The pairwise walk decides whether two sorted member lists agree position by position, with what it leaves of both |
| CompareInPlace.CompareJsonSymmetric | managed_components/espressif__cjson/cJSON/cJSON_Utils.c:604-690 | compare_json is symmetric on all trees, in both case modes |
| CompareInPlace.LeftSame | managed_components/espressif__cjson/cJSON/cJSON_Utils.c:604-690 | What compare_json leaves of a tree has the same height, and the same meaning in every mode in which the keys are unique |
| CompareInPlace.ItemLeft | managed_components/espressif__cjson/cJSON/cJSON_Utils.c:639-653 | Of two arrays the elements up to and including the first that differs are left as their comparison leaves them, and the rest as they were |
| CompareInPlace.MemberLeft | managed_components/espressif__cjson/cJSON/cJSON_Utils.c:656-682 | The same for sorted members, where a value is looked at only under a common name |
| TreeCompare.SortedAligned | managed_components/espressif__cjson/cJSON/cJSON_Utils.c:656-682 | Two strictly sorted member lists with the same keys have them at the same positions |
| TreeCompare.CompareJsonDecidesMeaning | managed_components/espressif__cjson/cJSON/cJSON_Utils.c:604-690 | compare_json decides the same order-free equality as cJSON_Compare |
| TreeLikeness.CompareDecidesLikeness | managed_components/espressif__cjson/cJSON/cJSON.c:3057-3180 | On unique-key trees with any numbers cJSON_Compare holds exactly when the meanings are alike: equal up to numbers that differ by at most 2^-52 of the larger, with an invalid node unlike any |
| TreeLikeness.CompareJsonDecidesLikeness | managed_components/espressif__cjson/cJSON/cJSON_Utils.c:604-690 | The same for compare_json, which also wants the integer parts equal and takes two invalid nodes for equal |
| TreeLikeness.PrintedComparesEqual | managed_components/espressif__cjson/cJSON/cJSON.c:1126-1310 | What cJSON_Parse makes of the printed text of a unique-key tree compares equal to the tree in cJSON_Compare, for any numbers |
| PointerEscape.EncodedLength | managed_components/espressif__cjson/cJSON/cJSON_Utils.c:157-170 | The computed length is exactly the length of the escaped key |
| PointerEscape.EncodeInto | managed_components/espressif__cjson/cJSON/cJSON_Utils.c:173-196 | The escaped key and its terminator are written behind the given position, and nothing before it is touched |
| PointerEscape.MemberPath | managed_components/espressif__cjson/cJSON/cJSON_Utils.c:1116-1127 | The path of a member is the parent path, a slash and the escaped key, in a buffer of exactly that size |
| PointerEscape.EncodeNoSlash | managed_components/espressif__cjson/cJSON/cJSON_Utils.c:173-196 | An escaped key contains no slash |
| PointerEscape.DecodeInPlace | managed_components/espressif__cjson/cJSON/cJSON_Utils.c:359-390 | Decoding on the terminated buffer leaves the specified token, terminated, without reading past the terminator |
| PointerEscape.DecodeFromEncoded | managed_components/espressif__cjson/cJSON/cJSON_Utils.c:359-390 | What the in-place decoder makes of an escaped key, character by character: it never copies an ordinary character back |
| PointerEscape.DecodeUndoesEncode | managed_components/espressif__cjson/cJSON/cJSON_Utils.c:359-390 | Decoding in place undoes escaping if and only if the key is free of slashes and its escaped form shows every character but ~ at its own place |
| PointerEscape.PlainDecodable | managed_components/espressif__cjson/cJSON/cJSON_Utils.c:359-390 | In particular for keys without ~ and without a slash |
| PointerLookup.ComparePointersLoop | managed_components/espressif__cjson/cJSON/cJSON_Utils.c:120-154 | The walk computes the specified comparison |
| PointerLookup.ComparePointersEncoded | managed_components/espressif__cjson/cJSON/cJSON_Utils.c:120-154 | A member name matches escaped(key) followed by the rest of a pointer exactly when it equals the key in the case mode, for arbitrary keys |
| PointerLookup.DecodeIndexLoop | managed_components/espressif__cjson/cJSON/cJSON_Utils.c:274-299 | The digit loop computes the specified index, wrapping like size_t |
| PointerLookup.DecodePrintedIndex | managed_components/espressif__cjson/cJSON/cJSON_Utils.c:274-299 | Every index that fits size_t decodes from its printed form to itself |
| PointerLookup.MatchMemberLoop | managed_components/espressif__cjson/cJSON/cJSON_Utils.c:326-331 | The member walk stops at the first member that matches the token |
| PointerLookup.StepLoop | managed_components/espressif__cjson/cJSON/cJSON_Utils.c:314-336 | One token leads to the specified child |
| PointerLookup.ResolveLoop | managed_components/espressif__cjson/cJSON/cJSON_Utils.c:301-346 | The token loop resolves the pointer as specified |
| PointerLookup.FindPointerLoop | managed_components/espressif__cjson/cJSON/cJSON_Utils.c:198-259 | The depth-first search yields the specified pointer |
| PointerLookup.IndexFits | managed_components/espressif__cjson/cJSON/cJSON_Utils.c:223-240 | A printed array index is never longer than the twenty characters that the path buffers leave for it |
| PointerLookup.FindPointerFinds | managed_components/espressif__cjson/cJSON/cJSON_Utils.c:198-259 | The search finds exactly the nodes of the tree and spells the tokens along the way to them |
| PointerLookup.PointerRoundTrip | managed_components/espressif__cjson/cJSON/cJSON_Utils.c:198-346 | In a tree whose objects have unique keys, the pointer made for any node resolves to that node, for arbitrary keys including ~ and slashes |
| PointerLookup.FoundPointerResolves | managed_components/espressif__cjson/cJSON/cJSON_Utils.c:198-346 | Whatever the search returns resolves to the node searched for, and it returns something exactly for nodes of the tree |
| PointerTokens.EscapedEvaluates | managed_components/espressif__cjson/cJSON/cJSON_Utils.c:173-196 | Evaluating an escaped key as section 4 of RFC 6901 says, ~1 first and then ~0, gives the key |
| PointerTokens.PathFollowed | managed_components/espressif__cjson/cJSON/cJSON_Utils.c:274-346 | For every tree and every list of tokens: the pointer leads exactly where the tokens lead one by one, an index without leading zeros into an array (counted modulo 2^32, and an empty token as 0), the first member with the key in the case mode into an object, and nowhere when one of them does |
| PointerTokens.BadEscapeMatchesNothing | managed_components/espressif__cjson/cJSON/cJSON_Utils.c:129-141 | A token in which a tilde is followed by neither 0 nor 1 matches no name |
| Patch.LastSlashLoop | managed_components/espressif__cjson/cJSON/cJSON_Utils.c:443-450 | The last slash: none behind it |
| Patch.LastToken | managed_components/espressif__cjson/cJSON/cJSON_Utils.c:448-453 | The last token of the copied path, decoded where it stands |
| Patch.Document.DetachPath | managed_components/espressif__cjson/cJSON/cJSON_Utils.c:430-481 | What is detached and what remains are those of the specification, including every failing path |
| Patch.Document.AddAtPath | managed_components/espressif__cjson/cJSON/cJSON_Utils.c:961-1023 | Status and resulting document of adding a value at a path: append, insert at index, replace a member, and the errors 9, 10 and 11 |
| Patch.Document.FetchValue | managed_components/espressif__cjson/cJSON/cJSON_Utils.c:905-957 | Status, value and remaining document of fetching what move, copy, add or replace puts in; the status is 0 exactly when there is a value. A move whose "from" is not a string gets status 5 here |
| Patch.Document.ApplyPatch | managed_components/espressif__cjson/cJSON/cJSON_Utils.c:807-1036 | Status and document after one patch object, also when the status is an error; test leaves the node sorted as compare_json does. A move whose "from" is not a string gets status 5 here, where the code follows a null pointer |
| Patch.Document.ApplyPatchList | managed_components/espressif__cjson/cJSON/cJSON_Utils.c:1038-1094 | The list is applied in order and stops at the first status that is not 0, each patch as in ApplyPatch |
| PatchGen.PatchList.Compose | managed_components/espressif__cjson/cJSON/cJSON_Utils.c:1096-1134 | Exactly the specified patch object is appended, without a value when there is none that can be copied |
| PatchGen.PatchList.Create | managed_components/espressif__cjson/cJSON/cJSON_Utils.c:1141-1279 | Exactly the specified edits are appended, in order, and both trees are left with the objects sorted that were walked |
| PatchGen.PatchList.CreateForItems | managed_components/espressif__cjson/cJSON/cJSON_Utils.c:1171-1213 | The same for the three element loops |
| PatchGen.PatchList.RemoveRest | managed_components/espressif__cjson/cJSON/cJSON_Utils.c:1192-1205 | Leftover elements: one removal each, all at the same index |
| PatchGen.PatchList.AddRest | managed_components/espressif__cjson/cJSON/cJSON_Utils.c:1206-1210 | New elements: one addition each at the end marker |
| PatchGen.PatchList.CreateForMembers | managed_components/espressif__cjson/cJSON/cJSON_Utils.c:1216-1274 | The same for the walk over two sorted member lists |
| PatchGen.PatchList.CreateForHeads | managed_components/espressif__cjson/cJSON/cJSON_Utils.c:1225-1273 | One turn of that walk appends the edits for the heads, and leaves of them what the specification puts in front |
| PatchGen.WalkedSame | managed_components/espressif__cjson/cJSON/cJSON_Utils.c:1141-1279 | What create_patches leaves of a tree has the same height, and the same meaning in every mode in which the keys are unique |
| PatchGen.ItemWalked | managed_components/espressif__cjson/cJSON/cJSON_Utils.c:1171-1213 | Of an array the elements that have a counterpart are walked, and the rest stay as they were |
| PatchGen.GeneratePatches | managed_components/espressif__cjson/cJSON/cJSON_Utils.c:1281-1309 | The patch array of the specified edits, null when an argument is null, and both trees as the walks leave them |
| PatchEmpty.NoEditsExact | managed_components/espressif__cjson/cJSON/cJSON_Utils.c:1141-1279 | For every two trees, whatever their keys and numbers: there are no edits if and only if compare_json finds the trees equal |
| PatchFrame.ApplyComposed | managed_components/espressif__cjson/cJSON/cJSON_Utils.c:807-1134 | Applying a composed patch object is performing its edit, whatever the document |
| PatchFrame.TestKeepsMeaning | managed_components/espressif__cjson/cJSON/cJSON_Utils.c:831-836 | A test may reorder members of the document but never changes its meaning |
| PatchFrame.TestDecides | managed_components/espressif__cjson/cJSON/cJSON_Utils.c:831-836 | A test succeeds exactly when there is a node at the path and it means the value |
| PatchFrame.DetachUnder | managed_components/espressif__cjson/cJSON/cJSON_Utils.c:430-481 | Frame: detaching below child i detaches in that child and leaves everything else |
| PatchFrame.InsertUnder | managed_components/espressif__cjson/cJSON/cJSON_Utils.c:961-1023 | Frame: adding below child i adds in that child and leaves everything else |
| PatchFrame.EditUnder | managed_components/espressif__cjson/cJSON/cJSON_Utils.c:807-1036 | Frame: an edit whose path starts with the token of child i acts on that child as it would on its own, with the same status, and on nothing else |
| PatchFrame.EditsUnder | managed_components/espressif__cjson/cJSON/cJSON_Utils.c:807-1036 | The same for a list of edits |
| PatchOperations.MoveIsRemoveAndAdd | managed_components/espressif__cjson/cJSON/cJSON_Utils.c:905-1023 | A move, in any document and both case modes: status 5 and nothing changed when nothing is at "from"; otherwise it is the removal at "from" followed by the addition at "path" of what was there, if and only if that is within the nesting limit of an addition |
| PatchOperations.TargetIsResolved | managed_components/espressif__cjson/cJSON/cJSON_Utils.c:430-481 | In documents with keys unique ignoring case, what is at "from" is what the pointer resolves to |
| PatchOperations.MoveResolved | managed_components/espressif__cjson/cJSON/cJSON_Utils.c:905-1023 | There, for a pointer that resolves to a node within the limit: the move gives what removing it and adding it at "path" gives |
| PatchOperations.CopyIsAdd | managed_components/espressif__cjson/cJSON/cJSON_Utils.c:905-940 | A copy is the addition of what the pointer resolves to; status 5 when it resolves to nothing and 6 beyond the nesting limit, with nothing changed |
| PatchOperations.NothingToRoot | managed_components/espressif__cjson/cJSON/cJSON_Utils.c:905-980 | A move or copy to the root has status 9 |
| PatchOperations.AddAtIndex | managed_components/espressif__cjson/cJSON/cJSON_Utils.c:981-1004 | Adding at an index up to the length puts the value there and keeps all elements in order |
| PatchOperations.AddUnderKey | managed_components/espressif__cjson/cJSON/cJSON_Utils.c:1005-1017 | Adding under a key removes the first member of that name and puts the new one at the end |
| PatchOperations.AddRefused | managed_components/espressif__cjson/cJSON/cJSON_Utils.c:974-1023 | Status 9 for a path to nowhere, 10 for an index past the end and 11 for a token that is no index, the document unchanged |
| PatchOperations.RemoveAtIndex | managed_components/espressif__cjson/cJSON/cJSON_Utils.c:430-481 | Removing at an index takes out that element alone |
| PatchOperations.RemoveRefused | managed_components/espressif__cjson/cJSON/cJSON_Utils.c:887-902 | Status 13 for a path that leads nowhere, the document unchanged |
| PatchOperations.RootRemoved | managed_components/espressif__cjson/cJSON/cJSON_Utils.c:838-849 | Removing the root succeeds and leaves an invalid node |
| PatchOperations.ReplaceIsRemoveAndAdd | managed_components/espressif__cjson/cJSON/cJSON_Utils.c:887-1023 | A replacement below the root is the removal followed by the addition, with the same status |
| PatchOperations.ReplaceWithoutValue | managed_components/espressif__cjson/cJSON/cJSON_Utils.c:887-949 | A replacement without a value has status 7 and has removed the old value all the same |
| PatchOperations.AppliedInOrder | managed_components/espressif__cjson/cJSON/cJSON_Utils.c:1038-1094 | A list of patches followed by another is the one and then the other; after a failure the document stays as the failing patch left it |
| PatchOperations.AddThenRemove | managed_components/espressif__cjson/cJSON/cJSON_Utils.c:807-1036 | A removal at an index undoes the addition there, for every document |
| PatchOperations.PatchRefused | managed_components/espressif__cjson/cJSON/cJSON_Utils.c:807-957 | The statuses 2, 3, 4 and 5 for a missing path, an unknown operation, a missing "from" and one that is no string, the document unchanged |
| PatchOperations.ValueRefused | managed_components/espressif__cjson/cJSON/cJSON_Utils.c:838-957 | Status 7 for a missing value and 8 for one beyond the nesting limit; at the root the value becomes the document |
| PatchRoundTrip.DiffPrefix | managed_components/espressif__cjson/cJSON/cJSON_Utils.c:1141-1279 | The edits made under a path are the edits made at the root with that path in front |
| PatchRoundTrip.RemovesWork | managed_components/espressif__cjson/cJSON/cJSON_Utils.c:1192-1205 | Repeated removal at one fixed index cuts exactly the tail |
| PatchRoundTrip.AddsWork | managed_components/espressif__cjson/cJSON/cJSON_Utils.c:1206-1210 | The additions append exactly the new elements |
| PatchRoundTrip.ItemsWork | managed_components/espressif__cjson/cJSON/cJSON_Utils.c:1171-1213 | The edits of an array all succeed and turn it into one with the meanings of the target, element by element |
| PatchRoundTrip.MembersWork | managed_components/espressif__cjson/cJSON/cJSON_Utils.c:1216-1274 | The sorted-merge walk, on any object that still holds the first list: every edit succeeds, keys outside the first list stay, and the keys of the second one end with its meanings |
| PatchRoundTrip.PatchRoundTrips | managed_components/espressif__cjson/cJSON/cJSON_Utils.c:807-1309 | JSON Patch round trip: the generated patches, applied to a copy of the first tree, give status 0 and a tree that cJSON_Compare finds equal to the second. Only the keys at which a member is added, removed or replaced as a whole have to be decodable, and only the removed and replaced ones have to be found first ignoring case |
| PatchRoundTrip.PlainKeysPatchable | managed_components/espressif__cjson/cJSON/cJSON_Utils.c:807-1309 | In particular between any two documents whose keys are all decodable and differ in more than case |
| PatchExact.RemovedKeyExact | managed_components/espressif__cjson/cJSON/cJSON_Utils.c:430-481 | For any object, any member and either case mode: the patch that removes it gives the object without it if and only if the lookup that ignores case finds that very member first under the decoded key |
| PatchExact.ReplacedKeyExact | managed_components/espressif__cjson/cJSON/cJSON_Utils.c:887-1023 | For any object, any member replaced as a whole and either case mode: the patch gives the new object if and only if that lookup finds the member first and the decoded key is its key again |
| PatchExact.AddedKeyExact | managed_components/espressif__cjson/cJSON/cJSON_Utils.c:961-1023 | For any object and any added member the patch gives the new object if and only if the decoded key is the key in the case mode |
| PatchExact.AddedDecodable | managed_components/espressif__cjson/cJSON/cJSON_Utils.c:359-390 | In the case-sensitive mode: if and only if the key is decodable |
| PatchExact.CaseTwinsLost | managed_components/espressif__cjson/cJSON/cJSON_Utils.c:464-467 | For every object and any two keys in it that differ only in case: the case-sensitive patch that removes the later member succeeds and gives another object |
| Rfc7396.MergeIdempotent | managed_components/espressif__cjson/cJSON/cJSON_Utils.c:1321-1379 | The MergePatch function of section 2 of RFC 7396 is idempotent |
| Rfc7396.MergeIntoOther | managed_components/espressif__cjson/cJSON/cJSON_Utils.c:1332-1336 | Merging a value into what is not an object yields that value if and only if it has no null member |
| Rfc7396.DiffThenMerge | managed_components/espressif__cjson/cJSON/cJSON_Utils.c:1391-1471 | The smallest merge patch from a to b turns a into b if and only if no null member has to be added or changed to |
| Rfc7396.NullFreeExpressible | managed_components/espressif__cjson/cJSON/cJSON_Utils.c:1391-1471 | In particular whenever b has no null member |
| MergeApply.MergeLoop | managed_components/espressif__cjson/cJSON/cJSON_Utils.c:1338-1378 | The member loop computes the specified merge |
| MergeApply.MergedExists | managed_components/espressif__cjson/cJSON/cJSON_Utils.c:1321-1379 | A merge yields a tree if and only if every value it has to duplicate can be duplicated, whatever the target |
| MergeApply.MergedRfc | managed_components/espressif__cjson/cJSON/cJSON_Utils.c:1321-1379 | On unique keys merge_patch means the MergePatch function of RFC 7396 and keeps keys unique |
| MergeApply.MergedTwice | managed_components/espressif__cjson/cJSON/cJSON_Utils.c:1321-1379 | Merging the same patch twice means the same as merging it once |
| MergeOrder.MergedInOrder | managed_components/espressif__cjson/cJSON/cJSON_Utils.c:1321-1379 | On unique keys: the members that the patch does not mention stay in front, untouched and in order, and behind them stand the merged ones by the names and in the order of the patch |
| MergeGen.GenerateLoop | managed_components/espressif__cjson/cJSON/cJSON_Utils.c:1391-1471 | The loop yields the specified patch, and leaves both trees with the objects sorted that were compared or walked |
| MergeGen.GenerateForValues | managed_components/espressif__cjson/cJSON/cJSON_Utils.c:1449-1457 | Two values with one name: compared, and only when they differ a patch between them as compare_json left them, ignoring case |
| MergeGen.WalkedSame | managed_components/espressif__cjson/cJSON/cJSON_Utils.c:1391-1471 | What the generator leaves of a tree has the same height, and the same meaning in every mode in which the keys are unique |
| MergeGen.GenerateStep | managed_components/espressif__cjson/cJSON/cJSON_Utils.c:1416-1462 | One turn adds to the patch, and to what is left of both trees, what the specification puts in front of the rest |
| MergeGen.HeadOrder | managed_components/espressif__cjson/cJSON/cJSON_Utils.c:1419-1433 | Where strcmp and the sort order every key of one list against every key of the other alike, the sign of strcmp on the two heads says which key is missing from the other list |
| MergeGen.GenerateMeaning | managed_components/espressif__cjson/cJSON/cJSON_Utils.c:1391-1471 | No patch exactly for two objects of equal meaning; otherwise the patch means exactly the removals, additions and changes |
| MergeGen.MergeRoundTrips | managed_components/espressif__cjson/cJSON/cJSON_Utils.c:1321-1478 | Merge-patch round trip, for documents whose keys strcmp and the sort order alike across the two: no patch exactly for objects that compare_json finds equal; otherwise merging it into a copy of the first tree gives the second if and only if no null member was added or changed to; merging no patch loses the target |
| MergeGen.LowerFits | managed_components/espressif__cjson/cJSON/cJSON_Utils.c:1391-1471 | In particular for documents without upper-case letters in their keys |
| MergeExact.RemovedMemberExact | managed_components/espressif__cjson/cJSON/cJSON_Utils.c:1413-1462 | For any object with keys unique ignoring case and any member: the merge patch that removes it, made and merged ignoring case, gives the object without it if and only if the member is the last in the sorted object or strcmp too puts it in front of the next one |
| MergeExact.TwoKeysExact | managed_components/espressif__cjson/cJSON/cJSON_Utils.c:1413-1423 | Of two members the first is removed: the other survives unless the sort puts the first in front and strcmp puts the other in front |
| Render.EscapedLonger | managed_components/espressif__cjson/cJSON/cJSON.c:1008-1017 | A string needs no escaping exactly when its escaped form is no longer than the string |
| Numerals.MagnitudeFits | managed_components/espressif__cjson/cJSON/cJSON.c:621-626 | The decimal exponent x of a number a that "%g" goes by: 10^x <= a < 10^(x+1) |
| Numerals.RoundedNear | managed_components/espressif__cjson/cJSON/cJSON.c:621-626 | The number printed with p significant digits is at most half a unit of its last digit away, and of two as near the one with an even last digit |
| NumeralRoundTrip.GeneralForm | managed_components/espressif__cjson/cJSON/cJSON.c:621-630 | The form of "%1.pg": no superfluous zero in front or behind, a point only in front of digits, and an exponent of at least two digits, behind a single digit, exactly when the rounded number is below 0.0001 or at least 10^p |
| NumeralRoundTrip.TextFits | managed_components/espressif__cjson/cJSON/cJSON.c:595-637 | Every number that a double can hold has a text that fits the local buffer of print_number |
| NumeralRoundTrip.ReadBackClose | managed_components/espressif__cjson/cJSON/cJSON.c:617-630 | What print_number writes stands for a number that compare_double finds equal, for every number: 17 digits are always enough |
| NumeralRoundTrip.StrtodGeneral | managed_components/espressif__cjson/cJSON/cJSON.c:307-408 | strtod reads the text of "%1.15g" or "%1.17g", with its stripped zeros, point and exponent, to its end and as exactly the rounded number |
| NumeralRoundTrip.StrtodInt | managed_components/espressif__cjson/cJSON/cJSON.c:307-408 | A printed integer reads back as its value and is read to its end |
| NumeralRoundTrip.StrtodText | managed_components/espressif__cjson/cJSON/cJSON.c:307-658 | strtod reads the text of any number to its end, as the number that ReadBackClose speaks of; 17 digits are printed only where 15 lose too much |
| Render.RenderNulFree | managed_components/espressif__cjson/cJSON/cJSON.c:571-581 | The rendering of a tree contains no terminator, so strlen finds its end |
| PrintLayout.ArrayLayout | managed_components/espressif__cjson/cJSON/cJSON.c:1590-1649 | An array stands on one line, its elements apart by a comma, and a space when formatted |
| PrintLayout.ObjectLayout | managed_components/espressif__cjson/cJSON/cJSON.c:1770-1881 | A formatted object has one member a line, behind a tab for every level, with a colon and a tab in front of the value and its closing brace on a line of its own; an unformatted one has commas and colons only |
| PrintLayout.UnformattedBlankFree | managed_components/espressif__cjson/cJSON/cJSON.c:1418-1881 | Outside its string literals unformatted text holds no space, tab, carriage return or line feed |
| StringLiteral.EscapeExact | managed_components/espressif__cjson/cJSON/cJSON.c:1019-1063 | The printer writes the characters of the short escapes, but for the slash, by their letters, the other control characters by four lower-case digits, and every other character as it is |
| PrintBuffer.Buffer.Ensure | managed_components/espressif__cjson/cJSON/cJSON.c:485-568 | Growing keeps everything written, succeeds exactly within the capacity, and never touches a preallocated buffer's size |
| PrintBuffer.Buffer.UpdateOffset | managed_components/espressif__cjson/cJSON/cJSON.c:571-581 | The deferred offset ends exactly behind the text |
| PrintBuffer.Buffer.PrintNumber | managed_components/espressif__cjson/cJSON/cJSON.c:591-658 | The text of any number and a terminator, the offset behind the text; fails exactly when the text is longer than 25 characters or the buffer cannot hold it |
| PrintBuffer.Buffer.CountEscapes | managed_components/espressif__cjson/cJSON/cJSON.c:976-1000 | The first pass computes exactly how much longer the escaped string is |
| PrintBuffer.Buffer.StoreEscapes | managed_components/espressif__cjson/cJSON/cJSON.c:1019-1063 | The second pass writes exactly the escaped string |
| PrintBuffer.Buffer.PrintString | managed_components/espressif__cjson/cJSON/cJSON.c:949-1068 | The quoted escaped string and a terminator behind what was there; fails exactly when the buffer cannot hold them |
| PrintBuffer.Buffer.PrintValue | managed_components/espressif__cjson/cJSON/cJSON.c:1418-1489 | From the old offset to the next terminator the buffer holds exactly the rendering; it fails exactly for an invalid node, a number too long to print or a buffer without two spare bytes |
| PrintBuffer.Buffer.PrintArray | managed_components/espressif__cjson/cJSON/cJSON.c:1590-1649 | The same for arrays, the depth restored |
| PrintBuffer.Buffer.PrintItem | managed_components/espressif__cjson/cJSON/cJSON.c:1617-1642 | One turn of the element loop appends the element and its separator |
| PrintBuffer.Buffer.PrintObject | managed_components/espressif__cjson/cJSON/cJSON.c:1770-1881 | The same for objects, with their indentation |
| PrintBuffer.Buffer.PrintMember | managed_components/espressif__cjson/cJSON/cJSON.c:1797-1861 | One turn of the member loop appends key, colon, value, comma and line end |
| PrintBuffer.Print | managed_components/espressif__cjson/cJSON/cJSON.c:1234-1310 | The returned text is the rendering of the tree |
| PrintBuffer.PrintBuffered | managed_components/espressif__cjson/cJSON/cJSON.c:1312-1341 | The same text whatever the first buffer size; null exactly for a negative size, a tree without a text or an unrepresentable length |
| PrintBuffer.PrintPreallocated | managed_components/espressif__cjson/cJSON/cJSON.c:1343-1360 | Succeeds if and only if there is a buffer of at least two bytes more than the text, and then holds the text and a terminator |
| Utf8.ParseHex4 | managed_components/espressif__cjson/cJSON/cJSON.c:661-694 | The shifting loop computes the number of the four hexadecimal digits, 0 for a bad digit |
| Utf8.BytesDecode | managed_components/espressif__cjson/cJSON/cJSON.c:750-810 | The bytes of a code point decode to that code point (table of section 3 of RFC 3629) |
| Utf8.BitForms | managed_components/espressif__cjson/cJSON/cJSON.c:790-809 | The C bit operations on a code point are the divisions and remainders of the model |
| Utf8.StoreBytes | managed_components/espressif__cjson/cJSON/cJSON.c:790-809 | The loop that stores from the last byte to the first writes exactly the UTF-8 bytes |
| Utf8.SurrogatesExact | managed_components/espressif__cjson/cJSON/cJSON.c:729-755 | Every supplementary code point is denoted by exactly one surrogate pair |
| Utf8.Literal | managed_components/espressif__cjson/cJSON/cJSON.c:698-757 | An accepted literal is 6 or 12 characters long, lies before the closing quote and denotes a code point |
| StringLiteral.UnescapeExact | managed_components/espressif__cjson/cJSON/cJSON.c:881-904 | The short escapes are those of section 7 of RFC 8259, by its eight letters, and no other |
| StringLiteral.HexRight | managed_components/espressif__cjson/cJSON/cJSON.c:661-694 | parse_hex4 accepts the twenty-two hexadecimal digits and no other, and computes the 16-bit unit they spell |
| StringLiteral.SurrogateRejected | managed_components/espressif__cjson/cJSON/cJSON.c:714-747 | A lone half of a surrogate pair is rejected |
| ParseText.SkipBlank | managed_components/espressif__cjson/cJSON/cJSON.c:1085-1108 | Only blanks are skipped, and at the end of the buffer it steps back inside |
| ParseText.ClosingQuote | managed_components/espressif__cjson/cJSON/cJSON.c:836-854 | A closing quote is a quote, at or behind the start and inside the buffer |
| ParseText.DecodeStep | managed_components/espressif__cjson/cJSON/cJSON.c:867-919 | Every step of the second pass moves forward and at most one position past the closing quote |
| ParseText.ParseValue | managed_components/espressif__cjson/cJSON/cJSON.c:1363-1415 | On any bytes: a success ends strictly behind its start and inside the buffer, a failure leaves an offset inside it |
| ParseText.ParseElements | managed_components/espressif__cjson/cJSON/cJSON.c:1524-1564 | The same for the element loop, which starts one position in front of the first element |
| ParseText.ParseMembers | managed_components/espressif__cjson/cJSON/cJSON.c:1682-1745 | The same for the member loop |
| StringLiteral.QuoteFound | managed_components/espressif__cjson/cJSON/cJSON.c:836-854 | The first pass finds the quote that closes a well-formed literal, whatever escapes it holds |
| StringLiteral.DecodePiece | managed_components/espressif__cjson/cJSON/cJSON.c:867-919 | The second pass turns each well-formed escape into the bytes that the table of section 7 of RFC 8259 gives it, and steps right behind it |
| StringLiteral.LiteralDenotes | managed_components/espressif__cjson/cJSON/cJSON.c:819-946 | A well-formed literal (section 7 of RFC 8259) parses to the UTF-8 of the code points it denotes, as a C string, and ends behind its closing quote |
| StringLiteral.QuotedParses | managed_components/espressif__cjson/cJSON/cJSON.c:819-1068 | What print_string_ptr quotes, parse_string reads back, for every C string |
| StringAccepted.StringExact | managed_components/espressif__cjson/cJSON/cJSON.c:819-946 | parse_string accepts exactly the literals made of those forms and of two oddities, \u with four characters that are no number, taken for a zero, and a quote read out of step behind one, and gives exactly the string they yield |
| JsonNumber.NumeralRead | managed_components/espressif__cjson/cJSON/cJSON.c:307-408 | Every decimal numeral, with or without sign, point and exponent in either case, is read to its end as its value |
| JsonNumber.StrtodSpells | managed_components/espressif__cjson/cJSON/cJSON.c:307-408 | And whatever is read from the start of a text is such a numeral |
| JsonGrammar.SpellingParses | managed_components/espressif__cjson/cJSON/cJSON.c:1363-1767 | Any spelling of a tree, with any blanks between tokens, is read as that tree up to its end if it is nested within the limit, and rejected if it is nested deeper |
| JsonAccepted.AcceptedSpells | managed_components/espressif__cjson/cJSON/cJSON.c:1363-1767 | And the parser accepts nothing else: whatever it reads as a tree, at any offset and depth, is a spelling of that tree nested within the limit |
| JsonAccepted.ParsesExactly | managed_components/espressif__cjson/cJSON/cJSON.c:1363-1767 | Up to an end that no numeral goes on behind: a tree is read if and only if the text spells it and it is nested no deeper than 1000 levels |
| JsonAccepted.DocumentAccepted | managed_components/espressif__cjson/cJSON/cJSON.c:1111-1187 | An accepted document is blanks, behind a byte order mark if there are two more bytes, and a spelling of the tree; and, when a terminator is required, blanks up to it |
| JsonAccepted.UnclosedFails | managed_components/espressif__cjson/cJSON/cJSON.c:836-946 | Without a closing quote the error position is behind the opening quote, or on it at the end of the buffer |
| ParseRoundTrip.RenderSpells | managed_components/espressif__cjson/cJSON/cJSON.c:1418-1881 | What the printer renders, formatted or not, at any indentation, is a spelling of the tree with its numbers as printed |
| ParseRoundTrip.ParsePrinted | managed_components/espressif__cjson/cJSON/cJSON.c:1363-1881 | Printed text anywhere in a buffer parses to that tree, its numbers as printed, and ends right behind it when nested within CJSON_NESTING_LIMIT; one level deeper it is rejected |
| ParseRoundTrip.DocumentParses | managed_components/espressif__cjson/cJSON/cJSON.c:1142-1187 | A spelling with blanks around it is a document, with or without the terminator being required |
| ParseRoundTrip.MarkedDocumentParses | managed_components/espressif__cjson/cJSON/cJSON.c:1111-1124 | The same behind a byte order mark |
| ParseRoundTrip.ParseUndoesPrint | managed_components/espressif__cjson/cJSON/cJSON.c:1126-1310 | cJSON_ParseWithOpts undoes cJSON_Print and cJSON_PrintUnformatted: the same tree up to numbers that compare_double finds equal, and the very same one when the numbers are 32-bit integers |
| ParseRoundTrip.TrailingRefused | managed_components/espressif__cjson/cJSON/cJSON.c:1172-1187 | Anything but blanks behind a printed tree is ignored when no terminator is required, and otherwise refused with the error position at its first character |
| ParseRoundTrip.DoublesHaveText | managed_components/espressif__cjson/cJSON/cJSON.c:1418-1489 | Every tree without an invalid node whose numbers a double can hold can be printed |
| ParseRoundTrip.DeepPrintRejected | managed_components/espressif__cjson/cJSON/cJSON.c:1497-1501 | A tree nested too deeply can be printed, but its text is rejected |
| ParseBuffer.StepFits | managed_components/espressif__cjson/cJSON/cJSON.c:856-920 | Pass one over-estimates pass two: a step writes no more than the room it gains, even when the passes see different escape boundaries |
| ParseBuffer.ParseBuffer.SkipWhitespace | managed_components/espressif__cjson/cJSON/cJSON.c:1085-1108 | The offset moves as specified, with the step back |
| ParseBuffer.ParseBuffer.ParseNumber | managed_components/espressif__cjson/cJSON/cJSON.c:307-408 | Value and offset, or the offset of the failure, are those specified |
| ParseBuffer.ParseBuffer.FindQuote | managed_components/espressif__cjson/cJSON/cJSON.c:836-854 | The closing quote and the number of escapes in front of it |
| ParseBuffer.ParseBuffer.Utf16LiteralToUtf8 | managed_components/espressif__cjson/cJSON/cJSON.c:698-816 | The UTF-8 bytes of the literal are stored behind the output pointer; a rejected literal changes nothing |
| ParseBuffer.ParseBuffer.StoreLiteral | managed_components/espressif__cjson/cJSON/cJSON.c:856-923 | In an array of exactly the computed size every write and the terminator fit, for every input; the bytes are those specified |
| ParseBuffer.ParseBuffer.ParseString | managed_components/espressif__cjson/cJSON/cJSON.c:819-946 | The string read and the offset behind it, or the offset of the failure |
| ParseBuffer.ParseBuffer.ParseValue | managed_components/espressif__cjson/cJSON/cJSON.c:1363-1415 | The outcome is the specified one; a success moves the offset strictly forward and restores the depth |
| ParseBuffer.ParseBuffer.ParseArray | managed_components/espressif__cjson/cJSON/cJSON.c:1492-1587 | The same for arrays, through the step back in front of the first element |
| ParseBuffer.ParseBuffer.ParseObject | managed_components/espressif__cjson/cJSON/cJSON.c:1652-1767 | The same for objects |
| ParseBuffer.ParseBuffer.ParseKey | managed_components/espressif__cjson/cJSON/cJSON.c:1708-1732 | The name and its colon |
| ParseBuffer.ParseWithLengthOpts | managed_components/espressif__cjson/cJSON/cJSON.c:1142-1219 | The tree and the end of the parse, or no tree and the error position |
| ChildList.WalkReaches | managed_components/espressif__cjson/cJSON/cJSON.c:1907-1924 | The next chain from any child reaches every later child and then ends: no cycle |
| ChildList.GetItem | managed_components/espressif__cjson/cJSON/cJSON.c:1907-1924 | The child at the index, null past the end |
| ChildList.AddItem | managed_components/espressif__cjson/cJSON/cJSON.c:2012-2043 | The list is the old one with the item at its end, head.prev the new tail; it is refused exactly for null arguments or the parent itself |
| ChildList.Detach | managed_components/espressif__cjson/cJSON/cJSON.c:2243-2277 | The list is the old one without the item, which is left unlinked and returned; null and an unchanged list for null arguments and for an item in no list |
| ChildList.DetachIndex | managed_components/espressif__cjson/cJSON/cJSON_Utils.c:393-427 | The child at the index is taken out, and nothing else; past the end nothing changes |
| ChildList.InsertItem | managed_components/espressif__cjson/cJSON/cJSON.c:2319-2351 | The item stands at the index, or at the end when the index is past it |
| ChildList.InsertItemWithin | managed_components/espressif__cjson/cJSON/cJSON_Utils.c:693-728 | The item stands at the index; fails exactly when the index is past the end |
| ChildList.Replace | managed_components/espressif__cjson/cJSON/cJSON.c:2353-2400 | The replacement stands where the item stood, and the item is left unlinked; false and an unchanged list exactly for null arguments or a parent without children |
| DuplicateTree.Duplicate | managed_components/espressif__cjson/cJSON/cJSON.c:2774-2858 | The copy is a well-linked tree of fresh nodes with the same values in the same places; there is one exactly within CJSON_CIRCULAR_LIMIT |
| DuplicateTree.CopyChildren | managed_components/espressif__cjson/cJSON/cJSON.c:2810-2842 | The child loop chains copies of all children, or fails exactly when one is nested too deeply |
| Minify.MinifiedAgain | managed_components/espressif__cjson/cJSON/cJSON.c:2860-2955 | Minifying twice is minifying once |
| Minify.Minifier.CopyString | managed_components/espressif__cjson/cJSON/cJSON.c:2887-2907 | The literal is copied in place without the output passing the input |
| Minify.Minifier.SkipMultiLine | managed_components/espressif__cjson/cJSON/cJSON.c:2873-2885 | The input moves behind the comment; the output stays |
| Minify.Minifier.Run | managed_components/espressif__cjson/cJSON/cJSON.c:2909-2955 | The array starts with the minified text and a terminator, and no write is ahead of the read position |
| MinifyParse.LiteralCopied | managed_components/espressif__cjson/cJSON/cJSON.c:2887-2907 | A literal is copied up to the quote the parser finds; what follows is taken for the inside of a string exactly when the literal ends in an escaped backslash |
| MinifyParse.MinifiedParsesSame | managed_components/espressif__cjson/cJSON/cJSON.c:2909-2955 | A text accepted as a whole, no literal of which ends in an escaped backslash, is accepted as the same tree after minifying |
| MinifyParse.SingleBackslashesParseSame | managed_components/espressif__cjson/cJSON/cJSON.c:2909-2955 | In particular a text without two adjacent backslashes |
| MinifyParse.LastBackslashExact | managed_components/espressif__cjson/cJSON/cJSON.c:2887-2907 | For every string: the printed array of it and of a string of one space parses to itself after minifying if and only if the first string does not end in a backslash, and to the array without that space otherwise |
| MinifyPrinted.NoBlankLeft | managed_components/espressif__cjson/cJSON/cJSON.c:2909-2955 | For every text: outside literals, as the minifier takes them, the minified text holds no space, tab, carriage return, line feed or slash |
| MinifyPrinted.PrintedMinified | managed_components/espressif__cjson/cJSON/cJSON.c:2909-2955 | For every tree in which no string and no key ends in a backslash: minifying its formatted text gives its unformatted text |
| MinifyExact.PrintedMinifiedExact | managed_components/espressif__cjson/cJSON/cJSON.c:2887-2955 | For every tree with a text: it does if and only if a string ends in a backslash nowhere but at the very end, with nothing but closing brackets behind it |
| MinifyPrinted.CommentDropped | managed_components/espressif__cjson/cJSON/cJSON.c:2860-2885 | A comment of either kind behind a part of a text that ends outside literals, has no slash there and no literal ending in an escaped backslash goes as a whole and nothing else with it, whatever follows |
| MinifyPrinted.PrintedCommentDropped | managed_components/espressif__cjson/cJSON/cJSON.c:2860-2955 | In particular anywhere outside the literals of printed text, formatted or not: what is left is the unformatted text |
| DnsCache.Cache.LookupEntry | main/dns_proxy.c:264-288 | Table and result of a lookup: a hit within the lifetime and size, an expired slot cleared |
| DnsCache.Cache.StoreEntry | main/dns_proxy.c:290-323 | The entry lands in the first free or expired slot, or over the entry expiring soonest; every other slot stays |
| DnsCache.Cache.HandleQuery | main/dns_proxy.c:507-561 | Look up, and only after a miss forward and store: one step of the specified proxy loop. A reply from the cache is, byte for byte, the response of a live slot for the queried name and type behind the two bytes of the query's transaction ID |
| DnsCache.OneSlotPerKey | main/dns_proxy.c:507-561 | In every state of a run at most one valid slot holds a name and type |
| DnsCache.DisplacesOnlyOldest | main/dns_proxy.c:290-323 | A live entry is overwritten only when all twenty are live, and then it is the one stored first |
| DnsCache.StepKeeps | main/dns_proxy.c:507-561 | One turn of the proxy loop keeps the invariant between table and history of stores |
| DnsCache.RunKeeps | main/dns_proxy.c:507-561 | The invariant holds after every run |
| DnsCache.HitIsLastStore | main/dns_proxy.c:507-526 | After every run a hit answers with the last response stored for the queried name and type, never more than sixty seconds old: bytes 0 and 1 are those of the query, all others those of the response |
| DnsCache.LiveStoreHits | main/dns_proxy.c:264-323 | After every run a response at most sixty seconds old, last for its key and with at most nineteen stores behind it, is a hit, with the same reply byte for byte |
| DnsCache.MissPassesOn | main/dns_proxy.c:527-561 | A miss passes the upstream answer on unchanged and stores it, or gives no reply when there is none |
| DnsPacket.ParseDnsQuery | main/dns_proxy.c:148-223 | The output array holds the specified name and a terminator, without reading past the packet |
| DnsPacket.FindQuestionEnd | main/dns_proxy.c:333-340 | The specified end of the question, -1 for malformed input |
| DnsPacket.EndAgrees | main/dns_proxy.c:148-340 | On every packet the parser accepts, question_end is exactly the end of the question it read |
| DnsPacket.BuildCaptiveResponse | main/dns_proxy.c:348-366 | The bytes of the answer, or -1 and an untouched output exactly when question_end finds no end or the output is too small; for a question that runs past the packet, with what lies behind it in the buffer |
| DnsPacket.AnsweredPacket | main/dns_proxy.c:348-384 | For a question inside the packet the answer is that to the packet, whatever lies behind it in the buffer |
| DnsPacket.BuildNodataResponse | main/dns_proxy.c:374-384 | The same for the answer without data |
| DnsPacket.CaptiveAnswers | main/dns_proxy.c:348-366 | The captive answer to an accepted query with one question asks the same question and holds one A record in class IN with a TTL of 60 and the given address, owned by the queried name through the pointer to offset 12 |
| DnsPacket.NodataAnswers | main/dns_proxy.c:374-384 | The answer without data asks the same question and holds no record |
| DnsPacket.QueryReads | main/dns_proxy.c:148-223 | Every packet with a question and a name of at least one label of 1 to 63 bytes (section 3.1 of RFC 1035) is read as its labels joined with dots, unprintable bytes as question marks, cut to the size of the output, with the two bytes behind the name as the type |
| DnsPacket.QueryAccepted | main/dns_proxy.c:148-223 | And no other packet is: compressed, overlong and unterminated names and packets without a question are refused |
| WifiConfig.Dedupe | main/wifi_config_manager.c:526-535 | The older names without the new one, in order |
| WifiConfig.Shift | main/wifi_config_manager.c:537-547 | At most four older names, in order, behind the new one |
| WifiConfig.UpdateHistory | main/wifi_config_manager.c:526-547 | The five-name array holds the specified new history |
| WifiConfig.SafePut | main/wifi_config_manager.c:76-122 | Validity is field by field: one valid field more keeps a stored configuration valid |
| WifiConfig.SavedIsStored | main/wifi_config_manager.c:218-294 | After a save that reports success the store holds exactly that configuration, and it is valid |
| WifiConfig.SaveKeeps | main/wifi_config_manager.c:218-294 | A save that stops after any of its writes keeps the invariant |
| WifiConfig.EraseKeeps | main/wifi_config_manager.c:296-328 | Erasing keeps the invariant |
| WifiConfig.ResetKeeps | main/wifi_config_manager.c:380-404 | Resetting keeps the invariant, wherever it stops |
| WifiConfig.AddKeeps | main/wifi_config_manager.c:517-572 | Adding a name to the history keeps the invariant, wherever it stops |
| WifiConfig.AuthKeeps | main/wifi_config_manager.c:438-467 | Saving dashboard credentials keeps the invariant, wherever it stops |
| WifiConfig.ConfigureKeeps | main/web_server.c:688-703 | The save handler sets the flag only over a complete valid configuration |
| WifiConfig.PerformKeeps | main/wifi_config_manager.c:218-607 | Every command keeps the invariant, with any accesses failing |
| WifiConfig.ReachableProvisioned | main/wifi_config_manager.c:218-607 | In every reachable state a set provisioning flag means a complete valid configuration is stored |
| WifiConfig.QuietLoad | main/wifi_config_manager.c:124-216 | Without read faults loading hands out the stored configuration if it is complete and valid, and otherwise the defaults with the error of an incomplete or an invalid one |
| WifiConfig.LoadNeverMixes | main/wifi_config_manager.c:124-216 | With read faults loading hands out the stored configuration or the defaults, never a mixture |
| WifiConfig.ProvisionedLoads | main/wifi_config_manager.c:124-586 | From an empty store, after any commands with any failures: credentials reported as stored are loaded, not the defaults |
| WifiStart.SessionStops | main/wifi_config_manager.c:218-294 | Of the opening, the writes and the commit of a session the first access that fails ends it: success exactly when none fails, and exactly the writes before it made, for any faults |
| WifiStart.MarkedStarts | main/wifi_config_manager.c:576-607 | Without faults the flag reads as it was written, and configuration and history load as before |
| WifiStart.ConfiguredStarts | main/web_server.c:688-703 | Without faults the save handler takes exactly the configurations within the limits; the next start then finds credentials, loads that configuration and has its network first in the history, in front of the older ones |
| WifiStart.ErasedStarts | main/wifi_config_manager.c:296-328 | After an erase the next start finds no credentials and no history, and falls back to the defaults |
| WifiStart.ResetStarts | main/wifi_config_manager.c:380-404 | After a reset it loads the defaults as a stored configuration, without credentials or history |
| WifiStart.SyncedStarts | main/wifi_config_manager.c:339-378 | A stored network other than the built-in one is given up for the defaults; anything else is left as it is |
| WifiStart.AuthStarts | main/wifi_config_manager.c:438-467 | Dashboard credentials are stored as given, next to everything else |
| SsidHistory.RecentIsRecent | main/wifi_config_manager.c:517-572 | The reference list holds exactly the added names, without repeats, each last added after the ones behind it |
| SsidHistory.RememberRecent | main/wifi_config_manager.c:524-547 | Updating the first five names gives the first five names of the longer run |
| SsidHistory.AddedIsLoaded | main/wifi_config_manager.c:486-572 | After a successful add the next load returns exactly the updated history |
| SsidHistory.HistoryIsRecent | main/wifi_config_manager.c:486-572 | Over any run of adds and erases the loaded history is the first five of the distinct names since the last erase, most recent first |
| WifiStore.Store.SaveConfig | main/wifi_config_manager.c:218-294 | Store and error code are those of the specification, for any faults; the invariant is kept, and after a success the store holds exactly this configuration |
| WifiStore.Store.LoadConfig | main/wifi_config_manager.c:124-216 | For any faults: a success hands out the stored configuration, which is valid, a failure the defaults, and nothing stored changes |
| WifiStore.Store.LoadSsids | main/wifi_config_manager.c:486-515 | The names loaded into the array are those specified |
| WifiStore.Store.AddSsidToHistory | main/wifi_config_manager.c:517-572 | Store and error code are those specified, stopping at the first write that fails, and the invariant is kept |
| WifiStore.Store.EraseConfiguration | main/wifi_config_manager.c:296-328 | For any faults: the invariant is kept, and after a success nothing is stored |
| WifiStore.Store.ResetConfiguration | main/wifi_config_manager.c:380-404 | For any faults: the invariant is kept, and after a success the defaults are stored; without faults it succeeds, and the next start loads the defaults and finds no credentials and no history |
| WifiStore.Store.SyncConfiguration | main/wifi_config_manager.c:339-378 | Store and error code are those specified, and the invariant is kept for any faults |
| WifiStore.Store.MarkProvisioned | main/wifi_config_manager.c:588-607 | Store and error code are those specified; the invariant is kept unless the flag is set over an incomplete configuration, and without faults the flag reads as written |
| WifiStore.Store.Configure | main/web_server.c:688-703 | Save, history and only then the flag; success is reported exactly when the save succeeded, and the invariant is kept for any faults. Without faults it succeeds exactly within the limits, and then credentials are found and that configuration is loaded |

## Left out

- PatchRoundTrip.PatchRoundTrips: stated one way. For a single member added, removed or replaced the condition is exact (PatchExact.AddedKeyExact, PatchExact.RemovedKeyExact, PatchExact.ReplacedKeyExact); over a whole document the effects of several wrong edits can cancel, as when both of two keys that differ only in case are removed. Arrays are no longer than `size_t` counts, and numbers are 32-bit integers.
- MergeGen.MergeRoundTrips: stated one way. For a single removed member the condition is exact (MergeExact.RemovedMemberExact); over a whole document a wrong order does not matter for two keys that the walk never compares. Numbers are 32-bit integers.
- MinifyParse.MinifiedParsesSame: the condition is exact for where a literal ends (LiteralCopied), for which printed texts minify to their unformatted form (MinifyExact.PrintedMinifiedExact) and for whether printed arrays of two strings keep their tree (LastBackslashExact), not for the tree of every text: one can lose nothing although a literal ends in an escaped backslash, when nothing behind it would be removed or kept differently.
- PrintBuffer.Buffer.PrintNumber: infinities and NaN, which the code prints as null, and locale decimal points are not modelled. The check with `sscanf` compares the exact 15-digit number, not the double nearest to it.
- ParseRoundTrip.ParseUndoesPrint: numbers are exact reals, so what reads back is the decimal number of the text; that the double nearest to 17 digits is the double that was printed is not shown.
- ParseBuffer.ParseBuffer.ParseNumber: rounding, overflow and underflow in `strtod` are not modelled. A numeral is read exactly; the run of numeral characters is what the parser hands to `strtod`, and the locale's decimal point is taken to be a full stop.
- TreeCompare.CompareLoop: a node compared with itself counts as equal in the code without a look at its children; on trees that share nodes and hold an invalid one the model says unequal.
- Patching, merging and comparing work on trees as values. That the linked nodes carry those values is shown for the list operations, the sort and the recursive copy (ChildList, SortList, DuplicateTree), not for whole patched trees, and aliasing between a patch and the document is not modelled.
- SortList.SortNodes: the head's back pointer after a sort, which the code leaves alone, is not part of the model.
- Raw nodes, reference and constant-key flags, allocator hooks, cJSON_Delete and failing allocations.
- PrintBuffer.Buffer.Ensure: growing keeps the contents and always succeeds within the capacity; a failing allocation, and whether growing is by `realloc` or by copying by hand, are not modelled.
- Patch.Document.ApplyPatch: a move or copy whose "from" is not a string reports status 5, as for a path that leads nowhere; the null pointer that the code follows there for a move is not modelled. That a test also sorts the value inside the patch is not part of the contract.
- Patch.Document.ApplyPatchList: as for ApplyPatch.
- PatchOperations.MoveIsRemoveAndAdd: for a "from" whose last token is decodable; what the decoder makes of other tokens is in PointerEscape.DecodeFromEncoded. A moved value beyond the nesting limit is added all the same, which no addition does.
- Patch.Document.FetchValue: as for ApplyPatch.
- PointerLookup.DecodeIndexLoop: `size_t` is taken to have 32 bits, as on the ESP32.
- Utf8.StoreBytes: shifts and masks are written as division and remainder; BitForms justifies that.
- The counting functions cJSON_GetArraySize and the creation and convenience functions built on the list operations, which would only add easy members.
- DnsCache.Cache.StoreEntry: expiry times stay below the largest 64-bit integer. Names are compared through their first 255 characters, all that the entry stores.
- DnsCache.LiveStoreHits: store times strictly increase and received datagrams fit the receive buffer.
- Time and upstream answers are inputs. Sockets, tasks, captive-mode switching, MAC lookup, statistics and logging are left out, as are packets that do not parse, which are forwarded without touching the cache.
- DnsPacket.BuildCaptiveResponse: the receive buffer must be no shorter than the output buffer; in the code both have the same size. The same holds for BuildNodataResponse.
- WifiConfig.EraseKeeps: erasing the namespace either happens or fails as a whole, and every write is visible at once, before the commit.
- SsidHistory.HistoryIsRecent: names of 1 to 32 characters and a store without faults; with faults the provisioning invariant is shown, and which writes a session makes (WifiStart.SessionStops).
- Dashboard credentials appear only as writes to the same store; verifying them is left out.
- HTTP handlers, Wi-Fi and NAPT control, the file system, the system monitor, `main/dns_log.c`, `main/ap_clients.c` and `main/main.c`, which would only add easier members.
