# Certified Merkle maps, their witnesses and what is served with them

This project models the Internet Computer's response verification packages and proves what they promise each other.

A canister keeps a certified map. It is a left-leaning red-black tree whose nodes cache the hash of the hash tree below
them (`RbTree`, `RbDelete` as values; `RbTreeHeap` as mutable nodes proved to do the same, step by step; `RbIter`,
`RbOrder` for iteration and depth). Trees nest into a path-indexed store (`NestedTrees`, `Stores`). A witness is a
partially pruned hash tree (`HashTree`, `Witnesses`, `RangeWitnesses`, `RangeProofs`) and witnesses merge (`Merge`). The
HTTP certification tree answers one request by merging several of them (`HttpTree`, `WildcardPaths`). The asset router
cuts assets into chunks, stores them and finds the response for a request (`AssetScopes`, `AssetRouting`);
`AssetServing` says what that amounts to for a client. Witnesses and the certificates that hold them travel as CBOR
(`Cbor`, `Certificates`), and certification rules as CEL text: `Cel` reads it and `CelMapping` says what it means,
`CelPrinters` writes it, `CelText` and `CelNames` say what comes back.

The idea that holds it together is `HashTree.Prunes(t, T)`: `t` is `T` with some subtrees replaced by their digests.
Every witness prunes the whole tree of the store; from that follow equal digests, safe merging and sound lookups.

Digests are symbolic in most modules: a digest is the term that was hashed, so two agree exactly when their inputs do.
`WireDigests` justifies that for bytes. There the hash is any function to 32 bytes, and every claim about a received
tree holds or the tree exhibits two inputs that collide under that function.

`dafny verify dfyconfig.toml` checks everything.

Three results are worth knowing before reading on:

- `strip_path_affixes` takes a real first segment `http_expr` for the prefix of the header form. For requests below
  `/http_expr` the list of more specific wildcards is therefore not complete. `HttpTree.CoverageExact` says exactly when
  it is, `HttpTree.PrefixSegmentGap` gives a request, and `PrefixGap.GapIsReached` three entries whose witness leaves a
  wildcard open.
- The CEL parser truncates a character to one byte before it tests whether it is alphanumeric, so more than the ASCII
  names come back. `CelNames.RoundTrip` gives the exact condition. No escape is ever read: `parse_str` stops where its
  inner `take_while` stops. The printers do not quote: `CelNames.OneNameReadAsTwo` is a name that is silently read as
  two. White space before a closing quote is skipped, so "a " is silently read as "a". `CelNames.ReadsTrimmed` and
  `CelNames.ReadsResplit` say when an unprintable name is an error and when it is read as something else.
- The asset router can serve what the tree no longer certifies. `AssetServing.ServedAfterDeletion` says exactly when
  deletion by path leaves a url answered that way; its documentation promises that all encodings are deleted, and
  `AssetServing.EncodedOutlivesDeletion` shows that none but the unencoded one is. `AssetServing.EntryLost` says exactly
  when deleting one entry takes another one's certification along.

## Model

| member | source | states |
|---|---|---|
| RbTree.InsertCorrect | packages/ic-certification/src/rb_tree/mod.rs:734-769 | insertion keeps key order, equal black height, no red right link, no red-red edge, a black root and every cached hash, and is a map update |
| RbTree.InsertShape | packages/ic-certification/src/rb_tree/mod.rs:741-767 | below the root insertion keeps the black height and breaks the shape at most by a red-red edge under a node that was red |
| RbTree.BalanceKeeps | packages/ic-certification/src/rb_tree/mod.rs:906-919 | rebalancing keeps order, contents and fresh hashes, whatever colours it meets |
| RbTree.RotateRightKeeps | packages/ic-certification/src/rb_tree/mod.rs:922-937 | a right rotation keeps order and contents, and its two hash updates make every cache right again |
| RbTree.RotateLeftKeeps | packages/ic-certification/src/rb_tree/mod.rs:939-954 | the same for a left rotation |
| RbTree.FlipKeeps | packages/ic-certification/src/rb_tree/mod.rs:956-960 | a colour flip touches neither order, contents nor hashes |
| RbTree.ModifyCorrect | packages/ic-certification/src/rb_tree/mod.rs:373-397 | modify rewrites the value of its key only, refreshes every hash above it and keeps the shape |
| RbDelete.DeleteCorrect | packages/ic-certification/src/rb_tree/mod.rs:772-880 | deletion keeps every invariant and is a map removal, for present and missing keys |
| RbDelete.DeleteShape | packages/ic-certification/src/rb_tree/mod.rs:822-858 | on every node deletion can stand on, the recursion keeps the black height and the shape; every unwrap on the way is safe |
| RbDelete.DeleteMap | packages/ic-certification/src/rb_tree/mod.rs:822-858 | the recursion removes exactly its key and leaves order and hashes right |
| RbDelete.PrepareLeftShape | packages/ic-certification/src/rb_tree/mod.rs:773-783 | before going left a red link has been moved down, with the black height and the nodes kept |
| RbDelete.PrepareRightShape | packages/ic-certification/src/rb_tree/mod.rs:785-795 | before going right a red link has been moved down, or the node is the transient black node with a red right child that holds the key |
| RbDelete.CanMoveRight | packages/ic-certification/src/rb_tree/mod.rs:785-795 | the rotation and the colour flips in move_red_right always find the children they need |
| RbDelete.DeleteMinMap | packages/ic-certification/src/rb_tree/mod.rs:797-820 | delete_min takes out the minimum even after a foreign key and value were swapped into it, and freshens every hash the swap left stale |
| RbDelete.MoveMinUp | packages/ic-certification/src/rb_tree/mod.rs:844-856 | putting the minimum of the right side in place of a deleted node removes that node's key only |
| RbTreeHeap.HeapRotateRight | packages/ic-certification/src/rb_tree/mod.rs:922-937 | the in-place rotation is the value rotation, on the same nodes |
| RbTreeHeap.HeapRotateLeft | packages/ic-certification/src/rb_tree/mod.rs:939-954 | the in-place rotation is the value rotation, on the same nodes |
| RbTreeHeap.HeapFlipColors | packages/ic-certification/src/rb_tree/mod.rs:956-960 | the in-place colour flip is the value flip, of the node and both its children |
| RbTreeHeap.HeapBalance | packages/ic-certification/src/rb_tree/mod.rs:906-919 | the in-place rebalancing is the value rebalancing |
| RbTreeHeap.HeapSwapMin | packages/ic-certification/src/rb_tree/mod.rs:797-804 | swaps a key and value with the minimum, leaving the hashes above it stale |
| RbTreeHeap.HeapDeleteMin | packages/ic-certification/src/rb_tree/mod.rs:806-820 | the in-place delete_min is the value delete_min |
| RbTreeHeap.HeapDeleteGo | packages/ic-certification/src/rb_tree/mod.rs:822-858 | the in-place deletion is the value deletion, with no dangling or shared child |
| RbTreeHeap.RbTreeMap.Get | packages/ic-certification/src/rb_tree/mod.rs:360-370 | the descending loop finds what the map holds and goes round at most 2 * log2(n + 1) times |
| RbTreeHeap.RbTreeMap.Insert | packages/ic-certification/src/rb_tree/mod.rs:734-769 | the mutable tree stays valid and becomes the map with the key set |
| RbTreeHeap.RbTreeMap.Modify | packages/ic-certification/src/rb_tree/mod.rs:373-397 | the mutable tree stays valid and becomes the map with the value rewritten |
| RbTreeHeap.RbTreeMap.Delete | packages/ic-certification/src/rb_tree/mod.rs:772-880 | the mutable tree stays valid and becomes the map without the key |
| RbOrder.SameMapSameEntries | packages/ic-certification/src/rb_tree/mod.rs:274-282 | two trees compare equal entry by entry exactly when they hold the same map, whatever their shapes |
| RbOrder.OrderOfMaps | packages/ic-certification/src/rb_tree/mod.rs:291-309 | for totally ordered values the trees are totally ordered as maps: where two part, the one that ends, has the smaller key, or has the smaller value under one key comes first; equal exactly when they hold the same map, and no answer depends on a tree's shape |
| RbOrder.Balanced | packages/ic-certification/src/rb_tree/mod.rs:906-919 | height is at most twice the black height, and a tree of black height b has at least 2^b - 1 nodes |
| RbOrder.LogarithmicSearch | packages/ic-certification/src/rb_tree/mod.rs:360-370 | the path from the root to a key has at most 2 * log2(n + 1) nodes |
| RangeProofs.LogarithmicWitness | packages/ic-certification/src/rb_tree/mod.rs:413-434 | for a present and for an absent key, the witness has at most five nodes for each node the search passes, and one more, beside what it shows of a present value; the search passes at most 2 * log2(n + 1) nodes |
| RbIter.StepToAccounts | packages/ic-certification/src/rb_tree/mod.rs:204-250 | one step yields an entry exactly when it arrives In, takes it off what is pending, and uses up one of the steps left |
| RbIter.Iter.Step | packages/ic-certification/src/rb_tree/mod.rs:204-250 | the explicit stack stays a path of the tree; a step fails only on the empty stack |
| RbIter.Iter.Next | packages/ic-certification/src/rb_tree/mod.rs:252-265 | yields the next pending entry, or None when nothing is pending |
| RbIter.Collect | packages/ic-certification/src/rb_tree/mod.rs:194-265 | iteration yields the in-order entries, each once, in exactly three successful steps a node |
| Witnesses.GoodHash | packages/ic-certification/src/nested_rb_tree.rs:33-47 | a store's root hash is the digest of its whole hash tree |
| Witnesses.WholeHash | packages/ic-certification/src/rb_tree/mod.rs:29-69 | the cached root hash is the digest of the tree rebuilt from scratch, through all nesting levels |
| Witnesses.WholeLookup | packages/ic-certification/src/rb_tree/mod.rs:360-370 | looking a label up in the whole hash tree is looking the key up in the map |
| Witnesses.GoodLevel | packages/ic-certification/src/nested_rb_tree.rs:41-47 | the whole hash tree of a store is sorted on every level, without Empty or Leaf under a Fork |
| HashTree.PruningIsSorted | packages/ic-certification/src/rb_tree/mod.rs:883-899 | so is every pruning of it, which all the witnesses are |
| Witnesses.ForkDigest | packages/ic-certification/src/rb_tree/mod.rs:883-899 | collapsing adjacent pruned parts does not show in the digest |
| Witnesses.ForkLookup | packages/ic-certification/src/rb_tree/mod.rs:883-899 | a label lookup in a three-way fork goes to the part the label belongs to |
| Bytes.LtIsLexicographic | packages/ic-certification/src/hash_tree/mod.rs:431-439 | labels and keys are ordered byte by byte: where two part, the one that ends or has the smaller byte comes first |
| HashTree.LookupLabelMeaning | packages/ic-certification/src/hash_tree/mod.rs:431-466 | lookup_label agrees with a scan of the flattened labels: found if visible, unknown exactly when a pruned node lies in the gap where the label would be, else absent |
| HashTree.UnpruneLabel | packages/ic-certification/src/hash_tree/mod.rs:431-466 | un-pruning never changes a definite answer |
| HashTree.UnprunePath | packages/ic-certification/src/hash_tree/mod.rs:468-497 | a path answer that is not Unknown is the answer of the un-pruned tree |
| HashTree.UnpruneSubtree | packages/ic-certification/src/hash_tree/mod.rs:501-525 | a subtree answer that is not Unknown is the answer of the un-pruned tree, and the subtree found prunes the real one |
| HashTree.SameDigestPrunes | packages/ic-certification/src/hash_tree/mod.rs:384-424 | whatever has the digest of a full tree is a pruning of it |
| HashTree.PrunesDigest | packages/ic-certification/src/hash_tree/mod.rs:384-424 | pruning never changes the digest |
| RangeProofs.NestedWitnessProof | packages/ic-certification/src/rb_tree/mod.rs:413-434 | the witness of a key has the root hash and shows the value as asked when the key is present, else proves absence; it shows no other key but the two neighbours of an absent one, with their values pruned, and forks no two hidden parts |
| RangeProofs.LookupWitness | packages/ic-certification/src/rb_tree/mod.rs:696-731 | the descent returns a pruning that shows the key, exactly when the key is there |
| RangeProofs.LowerBoundIsFloor | packages/ic-certification/src/rb_tree/mod.rs:639-654 | lower_bound is the key itself or its greatest smaller neighbour |
| RangeProofs.UpperBoundIsCeiling | packages/ic-certification/src/rb_tree/mod.rs:656-671 | upper_bound is the key itself or its least greater neighbour |
| RangeProofs.PrefixNeighborEndsBlock | packages/ic-certification/src/rb_tree/mod.rs:673-694 | right_prefix_neighbor is the first key after the block of keys that carry the prefix |
| RangeWitnesses.RangeWitnessIsRange | packages/ic-certification/src/rb_tree/mod.rs:399-411 | the four range functions are one range, open or closed at either end |
| RangeWitnesses.RangeLabels | packages/ic-certification/src/rb_tree/mod.rs:496-637 | a range shows exactly the keys from its lower to its upper bound |
| RangeWitnesses.RangeValues | packages/ic-certification/src/rb_tree/mod.rs:496-637 | each key shown carries its own value, in full or pruned as asked |
| RangeWitnesses.RangeDecides | packages/ic-certification/src/rb_tree/mod.rs:496-637 | between its bounds a range leaves no label unknown |
| RangeWitnesses.RangeTight | packages/ic-certification/src/rb_tree/mod.rs:883-899 | what lies outside the range is hidden in as few parts as the tree allows: no fork hides both its sides |
| RangeProofs.RangeProof | packages/ic-certification/src/rb_tree/mod.rs:399-411 | every range witness has the root hash, shows exactly the keys between its bounds, answers every key between them, and forks no two hidden parts |
| RangeProofs.KeyRangeProof | packages/ic-certification/src/rb_tree/mod.rs:446-463 | key_range and value_range keep the root hash, show the keys from floor to ceiling, answer all of [first, last] and reveal no value outside it |
| RangeProofs.KeysWithPrefixProof | packages/ic-certification/src/rb_tree/mod.rs:466-472 | keys_with_prefix keeps the root hash and answers every key with the prefix |
| Merge.MergeSafe | packages/ic-certification/src/nested_rb_tree.rs:162-198 | two trees with equal digests merge without a panic into a tree with that digest that both prune |
| Merge.MergeJoins | packages/ic-certification/src/nested_rb_tree.rs:162-198 | two prunings of one tree merge into a pruning of it |
| Merge.MergeLeast | packages/ic-certification/src/nested_rb_tree.rs:162-198 | the merge reveals no more than any tree that both prune |
| Merge.MergeReveals | packages/ic-certification/src/nested_rb_tree.rs:162-198 | whatever the digests, a merge that succeeds reveals exactly the nodes one of the two reveals |
| Merge.MergePointwise | packages/ic-certification/src/nested_rb_tree.rs:162-198 | whatever the digests, a merge that succeeds has at every position the node of the one that shows it; an empty node gives way to any other that is shown |
| Merge.MergePanicsExactly | packages/ic-certification/src/nested_rb_tree.rs:162-198 | it panics if and only if the two have, at some position, nodes that cannot agree: different digests, labels or leaves, or different kinds |
| Merge.MergePanics | packages/ic-certification/src/nested_rb_tree.rs:162-198 | the panic names the conflict at the first such position, parents before children and left before right |
| Merge.MergeSubtree | packages/ic-certification/src/nested_rb_tree.rs:162-198 | what a merge of two prunings answers for a path that the tree behind them has is what the one that shows it answers, or the merge of both answers |
| Merge.MergeIdempotent | packages/ic-certification/src/nested_rb_tree.rs:162-198 | merging a tree with itself changes nothing |
| Merge.MergeCommutes | packages/ic-certification/src/nested_rb_tree.rs:162-198 | the order of the two trees does not matter |
| Merge.MergeAssociates | packages/ic-certification/src/nested_rb_tree.rs:162-198 | the grouping of three trees does not matter |
| NestedTrees.InsertPathCorrect | packages/ic-certification/src/nested_rb_tree.rs:96-115 | insert sets its path, drops every strict prefix and extension of it, keeps all other paths, and ends although it calls itself on the same path |
| NestedTrees.DeletePathCorrect | packages/ic-certification/src/nested_rb_tree.rs:117-142 | delete removes its path and everything below, and nothing else |
| NestedTrees.InsertStaysDense | packages/ic-certification/src/nested_rb_tree.rs:96-115 | insert leaves no empty subtree below the root |
| NestedTrees.DeleteStaysDense | packages/ic-certification/src/nested_rb_tree.rs:117-142 | delete leaves no empty subtree below the root |
| NestedTrees.DenseContains | packages/ic-certification/src/nested_rb_tree.rs:82-94 | contains_path is true exactly when a value lies at the path or below it |
| NestedTrees.FullLookups | packages/ic-certification/src/nested_rb_tree.rs:33-94 | path and subtree lookups in the whole hash tree are get and contains_path |
| NestedTrees.WitnessProof | packages/ic-certification/src/nested_rb_tree.rs:148-159 | a witness has the root hash and answers its path, found or absent, never unknown |
| NestedTrees.WitnessShows | packages/ic-certification/src/nested_rb_tree.rs:148-159 | a witness shows exactly the paths of the store that lie above or below its own, and, where its own leaves the store, the neighbouring keys with their values hidden |
| NestedTrees.WitnessHides | packages/ic-certification/src/nested_rb_tree.rs:148-159 | a stored value neither above nor below the path is unknown to the reader of the witness |
| NestedTrees.VerifierSound | packages/ic-certification/src/hash_tree/mod.rs:468-525 | any hash tree with the store's root hash tells the truth about the store |
| NestedTrees.RunRefines | packages/ic-certification/src/nested_rb_tree.rs:96-146 | after any sequence of inserts, deletes and clears the store is the prefix-free path map of that history |
| NestedTrees.RunSound | packages/ic-certification/src/nested_rb_tree.rs:96-146 | any hash tree with the root hash of any history answers from that history |
| Stores.NestedTreeStore.Insert | packages/ic-certification/src/nested_rb_tree.rs:96-115 | the in-place insert is the path-map insert and keeps the store dense |
| Stores.NestedTreeStore.Delete | packages/ic-certification/src/nested_rb_tree.rs:117-142 | the in-place delete is the path-map delete and keeps the store dense |
| WireDigests.PreimageInjective | packages/ic-certification/src/hash_tree/mod.rs:779-807 | domain separators, digest length and label position keep the hashed inputs of different nodes apart |
| WireDigests.ToWireDigest | packages/ic-certification/src/hash_tree/mod.rs:384-424 | the digest a client recomputes from the sent tree is the one the store's own hash functions compute |
| WireDigests.PrunesOrCollides | packages/ic-certification/src/hash_tree/mod.rs:384-424 | for any 32-byte hash function, a tree with the store's digest is a pruning of the store's tree byte for byte, or two hashed inputs collide |
| WireDigests.ReceivedBytesSound | packages/ic-cbor/src/cbor_parse_hash_tree.rs:12-88 | any bytes that decode to a tree with the store's root hash tell the truth about the store, or exhibit a collision |
| WireDigests.SentWitnessArrives | packages/ic-certification/src/nested_rb_tree.rs:148-159 | an encoded witness decodes to itself, has the root hash as bytes and answers its path |
| HttpTree.HttpWitnessComplete | packages/ic-http-certification/src/tree/certification_tree.rs:82-119 | witnessing never panics, fails only for a wildcard longer than the request, naming both, and otherwise has the root hash and settles the entry, the request path, the responding wildcard and every listed more specific wildcard |
| HttpTree.HttpWitnessHides | packages/ic-http-certification/src/tree/certification_tree.rs:73-119 | the witness does not return the full tree: of the store it shows exactly the paths that the entry's path, or the requested, responding and listed paths, ask for; a certification aside from all of them is unknown |
| HttpTree.HttpWitnessTight | packages/ic-http-certification/src/tree/certification_tree.rs:82-119 | what it hides, it hides in as few parts as it can |
| HttpTree.WildcardDecides | packages/ic-http-certification/src/tree/certification_tree.rs:95-118 | the folded merges are safe and decide every path that went in, absent ones as absent |
| HttpTree.MergeWitnessesProof | packages/ic-http-certification/src/tree/certification_tree.rs:106-116 | folding witnesses of one tree never panics and keeps every answer |
| HttpTree.CoverageExact | packages/ic-http-certification/src/utils/wildcard_paths.rs:82-118 | for every responding wildcard no longer than the request, matching or not: the list covers all wildcards more specific than where the descent ends if and only if no real first segment http_expr is eaten, of the request or of a responding path whose rest matches it, or the request is answered by its own wildcard |
| HttpTree.PrefixSegmentGap | packages/ic-http-certification/src/utils/wildcard_paths.rs:44-72 | a concrete request, /http_expr answered by the wildcard at /, whose own wildcard is not listed |
| PrefixGap.MoreSpecificLeftOpen | packages/ic-http-certification/src/tree/certification_tree.rs:82-119 | stores with a wildcard at /http_expr for which that request's witness is made and leaves the wildcard unknown |
| PrefixGap.StoreIsReached | packages/ic-certification/src/nested_rb_tree.rs:96-115 | each such store that holds one path per branch is what three insertions into the empty store give |
| PrefixGap.GapIsReached | packages/ic-http-certification/src/tree/certification_tree.rs:50-119 | so a tree with three entries, the wildcards at / and /http_expr and the exact path /http_expr/<&>, gives such a witness, whatever is certified |
| HttpTree.WildcardWitnessRulesOut | packages/ic-http-certification/src/tree/certification_tree.rs:82-119 | outside that family every wildcard response's witness settles every wildcard more specific than where the descent ends |
| WildcardPaths.StrippedTreePath | packages/ic-http-certification/src/utils/wildcard_paths.rs:44-72 | stripping a tree path gives the segments back, less a leading segment http_expr |
| HttpTree.ExprPathStripped | packages/ic-http-certification/src/tree/certification_tree_path.rs:61-70 | stripping the header form of a path always gives its segments back |
| HttpTree.BuildSegments | packages/ic-http-certification/src/tree/certification_tree_path.rs:72-86 | the loop yields the non-empty pieces, an empty segment for a trailing slash, and the terminator |
| HttpTree.BuildTreePath | packages/ic-http-certification/src/tree/certification_tree_entry.rs:43-49 | an entry's path is its path segments followed by its certification segments |
| Stores.HttpCertificationTree.Insert | packages/ic-http-certification/src/tree/certification_tree.rs:50-55 | adds the entry, dropping only paths above or below it |
| Stores.HttpCertificationTree.Delete | packages/ic-http-certification/src/tree/certification_tree.rs:58-63 | removes the entry and keeps every other path |
| Stores.HttpCertificationTree.DeleteByPath | packages/ic-http-certification/src/tree/certification_tree.rs:66-71 | removes every certification under the path and nothing else |
| Stores.HttpCertificationTree.Witness | packages/ic-http-certification/src/tree/certification_tree.rs:73-119 | on every tree reached by inserts and deletes the witness is complete and keeps the rest of the tree hidden, as above |
| WildcardPaths.MoreSpecificWildcardsFor | packages/ic-http-certification/src/utils/wildcard_paths.rs:82-118 | the loop ends for all inputs and yields the descent from the request path to the responding one |
| WildcardPaths.WidenDescends | packages/ic-http-certification/src/utils/wildcard_paths.rs:90-115 | no step of the descent can miss the responding path, and each comes closer to it |
| WildcardPaths.WildcardsRanked | packages/ic-http-certification/src/utils/wildcard_paths.rs:82-118 | for canonical paths the list holds one wildcard of each rank from the request's down to the responding path's |
| WildcardPaths.WildcardsMeaning | packages/ic-http-certification/src/utils/wildcard_paths.rs:82-118 | the list holds, most specific first and each once, exactly the canonical wildcards that match the request, are no longer than it and outrank the responding one |
| WildcardPaths.StripUndoes | packages/ic-http-certification/src/utils/wildcard_paths.rs:44-72 | stripping the header form of a canonical path gives the path back, and so does stripping its tree form unless the path starts with the segment http_expr |
| WildcardPaths.LeadingSeparatorStripped | packages/ic-http-certification/src/utils/wildcard_paths.rs:44-72 | a leading separator is stripped too, unless it is all there is |
| AssetRouting.AssetRouter.InsertStaticAsset | packages/ic-asset-certification/src/asset_router.rs:643-681 | stores and certifies every chunk and the whole, or stops before the first response that cannot be certified; says what the map and the tree hold afterwards |
| AssetRouting.AssetRouter.DeleteStaticAsset | packages/ic-asset-certification/src/asset_router.rs:683-712 | takes the whole and every chunk out of the map, but only the whole out of the tree |
| AssetRouting.AssetRouter.InsertFallbackAsset | packages/ic-asset-certification/src/asset_router.rs:741-763 | stores and certifies the fallback at its scope, with the configured status (200 if none), the whole content, the headers and encoding and no range, or changes nothing |
| AssetRouting.AssetRouter.GetEncodedAsset | packages/ic-asset-certification/src/asset_router.rs:970-999 | the first preferred encoding with a response for the key decides, a long one through its first chunk |
| AssetRouting.AssetRouter.GetEncodedFallbackAsset | packages/ic-asset-certification/src/asset_router.rs:1001-1017 | the first preferred encoding with a fallback at the scope |
| AssetRouting.AssetRouter.GetAssetForRequest | packages/ic-asset-certification/src/asset_router.rs:461-525 | the search picks an exact response, else the first fallback among the request's scopes |
| AssetRouting.AssetRouter.ServeAsset | packages/ic-asset-certification/src/asset_router.rs:228-252 | a malformed url is reported first, then a malformed Range header, then a missing asset, and there is no other error; whatever is picked, the witness exists, has the root hash, settles all it has to, shows no more of the tree than its paths ask for, and finds the response's own certification exactly when the tree has it |
| AssetServing.InsertedIsShown | packages/ic-asset-certification/src/asset_router.rs:643-681 | after an asset is inserted, the witness of each of its responses finds that response's own certification: below its path the hashes of the rule, the request and the response in this order, the first chunk certified without a range |
| AssetServing.EntryLost | packages/ic-asset-certification/src/asset_router.rs:694-696 | deleting one entry takes another one's certification away exactly when its path begins the other's: for exact paths of equally many segments, when segments and certification agree |
| AssetServing.TwinUrls | packages/ic-http-certification/src/tree/certification_tree_path.rs:72-86 | every url but the empty one shares its tree path with the same url behind one more leading slash |
| AssetRouting.AssetRouter.DeleteAssetsByPath | packages/ic-asset-certification/src/asset_router.rs:412-423 | the unencoded whole response of each path leaves the map, and everything under the path leaves the tree |
| AssetServing.ServedAfterDeletion | packages/ic-asset-certification/src/asset_router.rs:412-423 | after deletion by path the router answers a deleted url from its map if and only if an encoded response or a chunk answers the request, a condition on the map before the call; the tree certifies nothing of that answer, and every other request goes to the fallbacks |
| AssetServing.ServedWithoutCertification | packages/ic-asset-certification/src/asset_router.rs:412-423 | of an inserted asset exactly the unencoded whole stops answering: every chunk, and an encoded asset of any size, meets that condition |
| AssetServing.EncodedOutlivesDeletion | packages/ic-asset-certification/src/asset_router.rs:405-423 | the input the documentation promises about: an encoded asset is still served after its url is deleted, with no certification in the tree |
| AssetRouting.StoredMeaning | packages/ic-asset-certification/src/asset_router.rs:652-680 | after insertion each key of the asset holds its own response and every other key is as before |
| AssetServing.Reassembly | packages/ic-asset-certification/src/asset_router.rs:643-681 | one request without a range and then requests at the bytes received give the content after exactly ceil(length / chunk size) responses, and its first j chunks after j |
| AssetServing.RangesTile | packages/ic-asset-certification/src/asset_router.rs:901-920 | the content ranges of the responses tile the content from 0 to its end, and each body is its range, with the asset's headers and encoding |
| AssetServing.SmallServedWhole | packages/ic-asset-certification/src/asset_router.rs:461-487 | an asset of at most one chunk comes whole with status 200 and no range |
| AssetServing.OnlyChunkBegins | packages/ic-asset-certification/src/asset_router.rs:461-487 | at a fresh url a range request is answered from the asset exactly at the begins of chunks, else by the fallbacks |
| AssetServing.DeleteUndoesInsert | packages/ic-asset-certification/src/asset_router.rs:683-712 | in the response map deletion undoes an insertion at fresh keys |
| AssetRouting.FirstFallbackIsFirst | packages/ic-asset-certification/src/asset_router.rs:492-521 | the fallback found is at the first scope that has one, and there is none exactly when no scope has |
| AssetServing.FallbackIsMostSpecific | packages/ic-asset-certification/src/asset_router.rs:489-521 | for a canonical request no fallback the client takes is stored at a more specific wildcard, save possibly the request path itself |
| AssetServing.FallbackServed | packages/ic-asset-certification/src/asset_router.rs:492-521 | a request without an exact response is answered, at the first of its scopes where the client takes a fallback, with the fallback as it was configured: its status, 200 if none, the whole content, headers and encoding, no range |
| AssetServing.FallbackExactly | packages/ic-asset-certification/src/asset_router.rs:1001-1017 | at a scope the first preferred encoding stored there is picked, else the unencoded fallback, and nothing exactly when neither is stored |
| AssetServing.EncodedExactly | packages/ic-asset-certification/src/asset_router.rs:970-999 | of the preferred encodings the first that is stored for the request decides, a long response through its first chunk |
| AssetServing.FallbackIsShown | packages/ic-asset-certification/src/asset_router.rs:784-809 | after an insertion, the fallback's certification over the asset's own url lies at its scope, and its witness finds it there |
| AssetServing.FallbackAcceptable | packages/ic-asset-certification/src/asset_router.rs:489-521 | for a canonical request the witness served with a fallback shows the exact path and every more specific wildcard absent if and only if the tree holds nothing there |
| AssetServing.AcceptableByMaps | packages/ic-asset-certification/src/asset_router.rs:461-525 | in a tree that certifies what the router stores and nothing else, something lies at a path or below it if and only if one of the two maps holds a response there |
| AssetServing.FallbackAcceptableByMaps | packages/ic-asset-certification/src/asset_router.rs:461-525 | in such a tree a served fallback is one a client may accept if and only if neither map holds a response at the exact path or at a more specific wildcard |
| AssetServing.StepKept | packages/ic-asset-certification/src/asset_router.rs:652-680 | storing a response at a fresh key and inserting its entry keeps tree and maps in step, unless another stored entry lies above or below it |
| AssetRouting.AssetIsForRequest | packages/ic-asset-certification/src/asset_router.rs:461-525 | what is picked is certified at the request's exact path or at a scope no longer than the request |
| AssetScopes.ScopesAreWildcards | packages/ic-asset-certification/src/asset_router.rs:489-521 | for a canonical request the scopes are, in order, the wildcards more specific than the root wildcard, less the request path itself unless it ends in a slash, and then the root wildcard |
| AssetScopes.ScopesBefore | packages/ic-asset-certification/src/asset_router.rs:489-521 | the scopes tried before any one are the wildcards its witness has to rule out, less the request path itself unless it ends in a slash |
| AssetScopes.ScopeFitsRequest | packages/ic-asset-certification/src/asset_router.rs:492-519 | for every request path, canonical or not, a scope is never longer than the request |
| Cbor.HeadRoundTrip | packages/ic-cbor/src/cbor_parser.rs:103-122 | a head in any of its widths is read back with its type and argument, and nothing more is consumed |
| Cbor.ItemRoundTrip | packages/ic-cbor/src/cbor_parser.rs:140-199 | every item of definite length made of integers, byte and text strings, arrays, maps and tags, nested in any way and with heads of any width, is read as what it says, and the parser stops exactly at its end; of two map entries with one key the later counts |
| Cbor.ParsedIsItem | packages/ic-cbor/src/cbor_parser.rs:140-199 | nothing else is accepted: what the parser reads, up to where it stops, is the encoding of such an item, but for maps that claim more pairs than they have, and is read as what it says |
| Cbor.WholeInput | packages/ic-cbor/src/cbor_parser.rs:201-205 | a whole input is read if it is one such item, and not if anything follows the item |
| Cbor.WholeInputIsItem | packages/ic-cbor/src/cbor_parser.rs:201-205 | a whole input that is read is one item and nothing else |
| Cbor.MapStopsQuietly | packages/ic-cbor/src/cbor_parser.rs:124-138 | a map that claims more pairs than can be read ends without an error after those that can |
| Cbor.NegativeExact | packages/ic-cbor/src/cbor_parser.rs:46-57 | a negative integer is read as itself if and only if it has a place in the signed type of its width, else it wraps around |
| Cbor.ParserRoundTrip | packages/ic-cbor/src/cbor_parser.rs:140-199 | the parser reads an encoded tree and stops exactly at its end |
| Cbor.CborRoundTrip | packages/ic-cbor/src/cbor_parse_hash_tree.rs:12-88 | decoding an encoded tree gives it back, with or without the self-describe tag |
| Cbor.DecodesExactly | packages/ic-cbor/src/cbor_parse_hash_tree.rs:21-88 | a parsed value decodes to a tree if and only if it is an array that begins with the tag and the parts of that tree; what follows them is ignored |
| Certificates.ReadsExactly | packages/ic-cbor/src/cbor_parse_certificate.rs:16-66 | a certificate is read from exactly the maps that hold its tree, its signature and, if it has one, its delegation; a delegation that is not a map counts as none |
| Certificates.CertificateRoundTrip | packages/ic-cbor/src/cbor_parse_certificate.rs:8-66 | decoding an encoded certificate gives it back, with or without delegation and self-describe tag |
| Cbor.EncodingsPrefixFree | packages/ic-certification/src/hash_tree/mod.rs:581-625 | no tree's encoding is the beginning of another's |
| CelPrinters.CreateCelExpr | packages/ic-http-certification/src/cel/create_cel_expr.rs:11-77 | the printers write the rendered structure of the expression |
| CelPrinters.CreateRequestCelExpr | packages/ic-http-certification/src/cel/create_cel_expr.rs:79-99 | appends the rendered request certification and a comma to the buffer |
| CelPrinters.CreateResponseCelExpr | packages/ic-http-certification/src/cel/create_cel_expr.rs:101-125 | appends the rendered response certification to the buffer |
| CelText.ReadSpells | packages/ic-response-verification/src/cel/parser.rs:28-171 | white space between tokens does not matter: any text of a term with identifiers for names and no quote in its strings is read to its end, its strings without the white space behind them, if and only if every string is a literal and then white space; otherwise the parser fails for good |
| CelText.ParsesExactly | packages/ic-response-verification/src/cel/parser.rs:28-171 | nothing else is read: the parser accepts an input, up to where it stops, if and only if it is a text of such a term, and its value is that term's |
| CelText.ReadTerm | packages/ic-response-verification/src/cel/parser.rs:28-171 | the same of printed text, which has no white space between tokens |
| CelNames.MappingInverts | packages/ic-response-verification/src/cel/ast_mapping.rs:174-218 | mapping the printed structure gives the expression back, whatever its names are |
| CelMapping.MapsExactly | packages/ic-response-verification/src/cel/ast_mapping.rs:174-218 | any parsed value is mapped to an expression if and only if it means it: the named function and objects, of each choice exactly one alternative, and lists of strings; other fields and arguments do not matter |
| CelMapping.ChoiceErrors | packages/ic-response-verification/src/cel/ast_mapping.rs:174-218 | both alternatives of a choice, or neither, are reported as extraneous or missing, by the name of the choice |
| CelMapping.ResponseErrors | packages/ic-response-verification/src/cel/ast_mapping.rs:132-172 | two response header lists are extraneous and none is missing, and these errors have no other cause |
| CelNames.ReadIsPrintable | packages/ic-response-verification/src/cel/parser.rs:65-84 | whatever text is read, the names that come out can be printed again |
| CelNames.RoundTrip | packages/ic-http-certification/src/cel/create_cel_expr.rs:11-125 | printing and reading gives the expression back if and only if every name is made of string-literal characters |
| CelNames.CharactersExactly | packages/ic-response-verification/src/cel/parser.rs:54-78 | a character may stand in a string if and only if its low byte is an ASCII letter or digit or it is a hyphen, and in a name with the underscore for the hyphen |
| CelNames.PlainRoundTrip | packages/ic-http-certification/src/cel/create_cel_expr.rs:11-125 | names of ASCII letters, digits and hyphens always come back, for lists of any length |
| CelNames.ReprintReads | packages/ic-response-verification/src/cel/ast_mapping.rs:174-218 | what any accepted text means survives being printed and read again |
| CelNames.ReadsTrimmed | packages/ic-response-verification/src/cel/parser.rs:65-84 | where no name has a quote in it, the printed text is read if and only if every name is string-literal characters and then white space, and gives the expression without that white space; otherwise it is a syntax error |
| CelNames.ReadsSpelled | packages/ic-response-verification/src/cel/tests.rs:12-113 | an expression laid out with any white space between its tokens, and followed by anything, is read as its minified text is |
| CelNames.ReadsExactly | packages/ic-response-verification/src/cel/tests.rs:12-113 | a text is read as an expression if and only if it begins with a text of a term that means this expression |
| CelNames.SilentlyTrimmed | packages/ic-response-verification/src/cel/parser.rs:65-84 | so a quote-free expression is read as another one, without an error, if and only if some name ends in white space and that is all that is wrong |
| CelNames.ReadsResplit | packages/ic-response-verification/src/cel/parser.rs:28-84 | where the quotes of the names stand only in the sequence quote, comma, quote, the text is read as the expression with the names cut there, by the same condition |
| CelNames.NameLost | packages/ic-http-certification/src/cel/create_cel_expr.rs:101-125 | a concrete name with an underscore, user_id, is a syntax error |
| CelNames.SpaceLost | packages/ic-response-verification/src/cel/parser.rs:65-84 | a concrete name with a space behind it is read as the name without the space, with no error |
| CelNames.ListsAlike | packages/ic-http-certification/src/cel/create_cel_expr.rs:86-96 | two lists of names print alike if and only if both are empty or their joined texts are equal |
| CelNames.OneNameReadAsTwo | packages/ic-http-certification/src/cel/create_cel_expr.rs:113-121 | a single name with a quote, a comma and a quote in it prints as two names and is read as those two, without an error |
| CelNames.PrintsAlike | packages/ic-http-certification/src/cel/create_cel_expr.rs:11-125 | where no name has a quote in it, two expressions print alike if and only if they are equal |

## Left out

- SHA-256, BLS signatures, DER keys, certificate verification, LEB128, Candid, serde visitors, decompression, URL
  decoding, glob matching and the signature cache are not part of this model; SHA-256 is a symbolic hash, or any
  32-byte function in `WireDigests`.
- The rest of response verification (version 2 validation and the check of a request and response pair) is not part of
  this model.
- Independence of the root hash from the insertion order is not claimed: the hash depends on the tree's shape.
- `lookup_label` on trees with Empty or Leaf directly under a Fork is outside `HashTree.Spine`; `Witnesses.GoodLevel`
  shows that no tree of the store has that shape.
- `list_paths` and the display code would only add easy members.
- Stores.NestedTreeStore.Insert: replaces the inner trees as values instead of updating their nodes in place. In the
  source each inner tree has a single owner, so no other reference could see the difference, but the in-place update of
  nodes across nesting levels is not captured. One level of mutable nodes is modelled in `RbTreeHeap`, against the same
  functions.
- Stores.NestedTreeStore.Delete: replaces the inner trees as values, as insertion does.
- `RbTreeHeap.HeapSwapMin` walks to the minimum recursively and swaps there; the source returns a mutable reference to
  the minimum from a loop and swaps through it.
- In the map case of the CBOR parser the source reserves room for the claimed number of entries, which panics when the
  number is huge, and its casts of lengths to `usize` truncate on 32-bit targets; the model parses such input instead.
- Whether bytes are valid UTF-8 is a parameter of the CBOR parser.
- Response headers are structured fields, not formatted text; Accept-Encoding sorting, Range header parsing, aliases,
  redirects, glob configurations and the builders are not part of this model. The router is given its certification
  function, the preferred encodings, and the decoded path and the begin of the range or that they were malformed.
- The deletion of fallback assets, by asset or by path, is not part of this model; it removes one key from a map and
  one path from the tree.
- That deleting an asset in the router undoes its certification is not claimed: the chunks' entries stay in the tree
  after `delete_static_asset`, and encoded and chunk responses stay in the map after `delete_assets_by_path`, where they
  are served without certification. What does hold is `AssetServing.ServedAfterDeletion`.
- That the router serves the most specific wildcard of all is not claimed: the request path itself is not tried.
- `HttpCertification::validate_response` is part of the certification function the router is given.
- What is read for a name with a quote anywhere but in quote, comma, quote is not stated in terms of the name.
  `CelNames.ReadsExactly` says it in terms of the printed text, and by `CelNames.RoundTrip` it is not that name.
- The CEL error values carry no printed form of the offending node.
