# Word-frequency containers and four C exercises, modelled in Dafny

The repository is a harness for six interchangeable key-to-frequency maps
(`MyTreeMap`): an unbalanced binary search tree, an AVL tree, a top-down
splay tree, an insert-only top-down red-black tree, a separately chained
hash table and a 1-indexed binary min-heap. Each supports `put`, `get`,
`remove`, `toString` and `PrintMostFrequent(n)`, which keeps an `n`-slot
buffer sorted by frequency while it walks the container. Beside them, the
repository has four small C programs, and those are modelled too:
- a first-fit block allocator over one pool (`my_heap.c`), with the
  scenarios of its test driver;
- a word-count list for two books, sorted by bubble sort (`list.c`);
- a customer/purchase table with an item sort (`customerpurchase/main.c`);
- two image combiners, one blending and one building a checkerboard
  (`image/iman.c`).

Each source file maps to one module:

- `Common` (`common.dfy`): entries, `Option`, `Result`, and the Java exceptions as `Error` values
- `TopFrequent` (`top_frequent.dfy`): the shared top-n buffer: `pushLeft`, the downward slot scan, the seed, and the proof that the printed slots are the top n
- `UnbalancedMap` (`unbalanced_map.dfy`): `BinarySearchTree`
- `AvlMap` (`avl_map.dfy`): `AvlTree`
- `SplayMap` (`splay_map.dfy`): `SplayTree`
- `RedBlackMap` (`red_black_map.dfy`): `RedBlackTree`
- `Records` (`records.dfy`): key lookup and overwrite over sequences of records, shared by the hash chains and the heap slots
- `HashTable` (`hash_set.dfy`): `HashSet`
- `HeapQueue` (`heap_queue.dfy`): `HeapPriorityQueue`
- `BlockPool` (`my_heap.dfy`): `my_heap.c` and the scenarios of `mallok_test.c`
- `WordFrequency` (`word_list.dfy`): `list.c`
- `CustomerPurchase` (`customer_purchase.dfy`): `customerpurchase/main.c`
- `ImageCombine` (`image_combine.dfy`): `image/iman.c`

How the source becomes Dafny:
- **Tree nodes are values.** The Java tree code is recursive and returns new
  subtree roots, so nodes are datatypes, and
  `insert`/`remove`/`balance`/rotations are functions.
- **Containers are classes.** Each container is a `class` whose `root`,
  `elementData` or `data` field its methods reassign or update.
- **The source's loops stay loops.** These remain `while` loops with
  invariants:
  - `pushLeft` and the top-n scan;
  - splay's walk, the red-black descent and `find`;
  - the hash-chain walks, `rehash` and `getPrime`;
  - the heap's bubble-up and bubble-down;
  - the allocator's `combine`;
  - the word list's `find` and bubble sort;
  - the customer `find` and `sortItems`;
  - the image loops.
- **Each method is proved against a specification function**, and the
  promised properties are lemmas about that function. Examples:
  `Allocate`, `Release` and `Coalesce` for the pool, `AddWord` for the word
  list, and `Checked` for the checkerboard.
- **Keys and frequencies are `int`.** The Java generics use `compareTo`,
  `equals` and, in the hash table, `hashCode`; all three are modelled on
  `int` (`<`, `==` and a hash-code parameter). Because keys and data share
  one type here, the hash table's data-comparing `contains` and `remove`
  can match (see "## Left out").

Facts of the code that the model keeps:
- `getPrime` (HashSet.java:306-321) counts down from `2n - 1`, and its
  divisor test runs only while `i < sqrt(p)`, so 121 passes as "prime".
- Every container re-offers its seed during the scan (for example
  AvlTree.java:95-102 seeds slot n-1, and the traversal at
  AvlTree.java:233-241 visits the same entry again), so the seed can fill
  two slots.
- The hash table's `PrintMostFrequent` prints every slot without a null
  check (HashSet.java:125-127), so `n` larger than the number of records
  plus one is a `NullPointerException`.
- The hash table rehashes before linking a record (HashSet.java:140-147).
  The load is below 0.75 before an `add` that does not rehash, and the
  linked record can take it past 0.75: 23 records in 31 buckets pass the
  test, and the 24th makes 24/31.
- The heap's `PrintMostFrequent` seeds with the least key, not the least
  value, and never offers the last slot (HeapPriorityQueue.java:87-89; see
  Findings).
- The red-black tree's `findMinFrequency` replaces its minimum only on a
  strictly smaller value (RedBlackTree.java:207, 212). The other trees
  replace it on a tie as well.

## Model

| member | source | states |
|---|---|---|
| `TopFrequent.PlacedWellFormed` | BinarySearchTree.java:156-165 | offering one candidate keeps a well-formed buffer (populated run at the top, sorted by value) |
| `TopFrequent.TargetFacts` | BinarySearchTree.java:156-165 | the downward scan stops at the first populated slot the candidate reaches, having passed only populated slots above it; a free slot or the bottom ends it otherwise |
| `TopFrequent.PlacedAt` | BinarySearchTree.java:184-189 | placing at slot i shifts slots 1..i down one place, drops slot 0 and stores the candidate at i |
| `TopFrequent.PlacedValues` | BinarySearchTree.java:156-165 | after a placement the buffered entries are the old ones plus the candidate, less slot 0's entry if it was populated |
| `TopFrequent.FullIffSlot0` | BinarySearchTree.java:156-165 | a well-formed buffer is full exactly when slot 0 is populated |
| `TopFrequent.Slot0Smallest` | BinarySearchTree.java:156-165 | slot 0 of a full buffer holds its smallest value |
| `TopFrequent.KeepsStep` | BinarySearchTree.java:156-165 | one offer keeps the top-n invariant: the buffer holds min(n, seen) entries drawn from those seen, and no entry left out is larger than one kept |
| `TopFrequent.KeepsAll` | BinarySearchTree.java:149-169 | offering a whole sequence of entries at least as large as the seed keeps the invariant |
| `TopFrequent.TopN` | BinarySearchTree.java:96-116 | from a minimum-value seed the buffer is sorted by value, holds min(n, visited + 1) entries of the seed plus the visited ones, and drops none larger than one kept |
| `TopFrequent.TopNAll` | BinarySearchTree.java:96-116 | with more slots than visited entries nothing is dropped |
| `TopFrequent.PlacedAllFrom` | BinarySearchTree.java:149-169 | every entry in the buffer was in it at the start or was offered |
| `TopFrequent.ValuesSorted` | BinarySearchTree.java:110-115 | the populated slots read from slot 0 upwards are sorted by value |
| `TopFrequent.Report` | BinarySearchTree.java:96-116 | the printed entries of the scan from a minimum-value seed are the top n of the seed and the visited entries |
| `TopFrequent.LastMinimumIsLastMin` | BinarySearchTree.java:201-215 | the minimum scan in which a tie goes to the later entry gives the least value, at a position after which every value is strictly larger |
| `TopFrequent.FirstMinimumIsFirstMin` | HashSet.java:243-257 | the minimum scan in which only a strictly smaller value replaces gives the least value, at a position before which every value is strictly larger |
| `TopFrequent.FirstMinimumOfAll` | HashSet.java:243-257 | the first entry of least value is in the sequence and no larger than any entry |
| `TopFrequent.LastMinimumForgets` | BinarySearchTree.java:201-215 | two minimum scans over the same entries agree once an entry below both starting points has been met |
| `TopFrequent.SeedCountedTwice` | BinarySearchTree.java:100-107 | a container holding only e reports e twice for n = 2: the seed is re-offered by the traversal |
| `TopFrequent.PushLeft` | BinarySearchTree.java:184-189 | the array after the loop is `Shifted` of the old one: each slot below index takes its right neighbour |
| `TopFrequent.Place` | BinarySearchTree.java:156-165 | the loop over slots n-1 down to 0 leaves the buffer `Placed` with the candidate |
| `TopFrequent.ShiftedPlaced` | BinarySearchTree.java:158-161 | pushLeft followed by the store into slot i is the placement at slot i |
| `UnbalancedMap.InOrderAscending` | BinarySearchTree.java:300-310 | the in-order listing of a search tree is strictly ascending |
| `UnbalancedMap.InOrderMembers` | BinarySearchTree.java:300-310 | the listing holds exactly the pairs of the tree's map |
| `UnbalancedMap.InOrderSize` | BinarySearchTree.java:300-310 | a search tree lists as many entries as its map has keys |
| `UnbalancedMap.SameListing` | BinarySearchTree.java:228-238 | a rearrangement with the same in-order listing keeps the search order and the map (reused for rotations and splay steps) |
| `UnbalancedMap.VisitPermutesInOrder` | BinarySearchTree.java:149-169 | the node-right-left traversal of PrintMostFrequent visits every entry exactly once |
| `UnbalancedMap.Lookup` | BinarySearchTree.java:128-138 | get(x, root) answers a value only for a key the tree holds |
| `UnbalancedMap.LookupFinds` | BinarySearchTree.java:128-138 | on a search tree the search returns exactly the map's value for x, or null when x is absent |
| `UnbalancedMap.Insert` | BinarySearchTree.java:228-238 | insert's keys are the old keys plus x: one leaf for a new key, none for a known one |
| `UnbalancedMap.InsertUpdates` | BinarySearchTree.java:228-238 | insert keeps the search order, maps x to y and leaves every other key alone |
| `UnbalancedMap.FindMinFirst` | BinarySearchTree.java:320-324 | the leftmost entry is the first one listed in order |
| `UnbalancedMap.FindMin` | BinarySearchTree.java:320-324 | findMin of a non-empty subtree returns an entry whose key the subtree holds |
| `UnbalancedMap.FindMinLeast` | BinarySearchTree.java:320-324 | in a search tree the leftmost entry is the pair of the least key |
| `UnbalancedMap.RemoveMinInOrder` | BinarySearchTree.java:280-288 | removeMin drops the first listed entry and keeps the rest of the listing |
| `UnbalancedMap.RemoveMin` | BinarySearchTree.java:280-288 | removeMin throws IllegalArgument exactly on an empty subtree, and otherwise adds no key |
| `UnbalancedMap.RemoveMinDrops` | BinarySearchTree.java:280-288 | removeMin on a search tree keeps the order and drops exactly the least key |
| `UnbalancedMap.RemoveFrom` | BinarySearchTree.java:252-268 | remove's only failure is IllegalArgument, and a successful remove adds no key |
| `UnbalancedMap.RemoveFromDrops` | BinarySearchTree.java:252-268 | remove fails with IllegalArgument exactly for a missing key; otherwise it keeps the order and the map less x |
| `UnbalancedMap.RemoveTwoChildren` | BinarySearchTree.java:259-264 | the two-child case: the right subtree's minimum takes the node's place |
| `UnbalancedMap.RemoveOneChild` | BinarySearchTree.java:265-266 | with at most one child, the child takes the node's place |
| `UnbalancedMap.ScanNodeTwice` | BinarySearchTree.java:201-215 | offering the node before its left subtree changes nothing once it is offered again after it (a tie goes to the later entry) |
| `UnbalancedMap.FindMinFrequency` | BinarySearchTree.java:201-215 | the result is min or one of the tree's entries, with a value no larger than min's |
| `UnbalancedMap.FindMinFrequencyIsLastMinimum` | BinarySearchTree.java:201-215 | findMinFrequency is the last minimum of the seed followed by the in-order listing |
| `UnbalancedMap.FindMinFrequencyLeast` | BinarySearchTree.java:201-215 | findMinFrequency(root, root) is no larger than any value in the tree |
| `UnbalancedMap.FillMostFrequent` | BinarySearchTree.java:149-169 | the recursive helper leaves the buffer as every visited entry offered in node-right-left order |
| `UnbalancedMap.ScanFrom` | BinarySearchTree.java:100-115 | from a minimum-value seed the printed slots are the top n of the seed and the tree's entries; n < 0 and n = 0 are the Java exceptions |
| `UnbalancedMap.MostFrequent` | BinarySearchTree.java:96-116 | PrintMostFrequent on a non-empty tree prints the top n of the seed and the tree's entries |
| `UnbalancedMap.BinarySearchTree.constructor` | BinarySearchTree.java:39-41 | an empty search tree |
| `UnbalancedMap.BinarySearchTree.Get` | BinarySearchTree.java:47-49 | the map's value for x or null; nothing changes |
| `UnbalancedMap.BinarySearchTree.Put` | BinarySearchTree.java:56-58 | the tree stays a search tree and its map becomes old map[x := y] |
| `UnbalancedMap.BinarySearchTree.Remove` | BinarySearchTree.java:64-66 | a missing key is IllegalArgument and the tree is unchanged; otherwise the map loses x |
| `UnbalancedMap.BinarySearchTree.IsEmpty` | BinarySearchTree.java:73-75 | true exactly when the map is empty |
| `UnbalancedMap.BinarySearchTree.ToString` | BinarySearchTree.java:83-87 | NoSuchElement exactly when empty; otherwise the pairs of the map, each once, strictly ascending by key |
| `UnbalancedMap.BinarySearchTree.PrintMostFrequent` | BinarySearchTree.java:96-116 | NoSuchElement on an empty tree; the Java exceptions for n <= 0; otherwise the top n |
| `AvlMap.CachedHeightIsDepth` | AvlTree.java:377-379 | in a balanced tree every cached height is the true height |
| `AvlMap.BalancedIsDense` | AvlTree.java:297 | a balanced tree of height h has at least the Fibonacci-like minimum number of nodes |
| `AvlMap.HeightLogarithmic` | AvlTree.java:297 | the height of a balanced tree is at most about twice log2 of its size |
| `AvlMap.CheckBalance` | AvlTree.java:343-356 | the height the check as written returns is the node's cached height |
| `AvlMap.CheckBalanceFixed` | AvlTree.java:343-356 | the height the corrected check returns is the subtree's true height |
| `AvlMap.CheckBalanceDecides` | AvlTree.java:343-356 | all the check as written decides is whether sibling cached heights differ by at most one |
| `AvlMap.CheckBalanceMissesStaleHeight` | AvlTree.java:343-356 | the check as written prints nothing on a leaf claiming height 5 |
| `AvlMap.CheckBalanceFixedDecides` | AvlTree.java:343-356 | the corrected check, on true heights, is silent exactly on trees meeting the AVL conditions |
| `AvlMap.RotateWithLeftChild` | AvlTree.java:385-393 | the left child becomes the root, with the same listing and recomputed heights |
| `AvlMap.RotateWithRightChild` | AvlTree.java:399-407 | the mirror image, with the same listing |
| `AvlMap.DoubleWithLeftChild` | AvlTree.java:414-417 | two rotations, with the same listing |
| `AvlMap.DoubleWithRightChild` | AvlTree.java:424-427 | the mirror image, with the same listing |
| `AvlMap.Balance` | AvlTree.java:310-327 | balance keeps the in-order listing |
| `AvlMap.SingleLeftCase` | AvlTree.java:314-316 | case 1: a single rotation repairs a left subtree two taller whose outer child is at least as tall |
| `AvlMap.DoubleLeftCase` | AvlTree.java:314-318 | case 2: a double rotation repairs the inner case |
| `AvlMap.SingleRightCase` | AvlTree.java:319-321 | case 4, mirroring case 1 |
| `AvlMap.DoubleRightCase` | AvlTree.java:319-323 | case 3, mirroring case 2 |
| `AvlMap.BalanceRestores` | AvlTree.java:310-327 | balance repairs a node whose balanced subtrees differ by at most two; the result's height is that of the taller subtree or one more |
| `AvlMap.BalanceKeeps` | AvlTree.java:310-327 | on an already balanced tree balance changes nothing |
| `AvlMap.InsertListing` | AvlTree.java:125-138 | insert lists what the plain search-tree insertion lists |
| `AvlMap.Insert` | AvlTree.java:125-138 | insert keeps the tree balanced, and its height grows by at most one |
| `AvlMap.InsertUpdates` | AvlTree.java:125-138 | on a balanced search tree insert keeps the key order, maps x to y and leaves every other key's value |
| `AvlMap.FindMin` | AvlTree.java:365-372 | the loop reaches the leftmost node, whose key is the least |
| `AvlMap.RemovedLeftCase` | AvlTree.java:180-181 | removing from the left subtree and rebalancing removes x and keeps a balanced search tree |
| `AvlMap.RemovedRightCase` | AvlTree.java:182-183 | the mirror case on the right |
| `AvlMap.RemovedRootCase` | AvlTree.java:184-189 | two children: the right subtree's least entry takes the node's place, and the result is balanced |
| `AvlMap.RemovedChildCase` | AvlTree.java:190-191 | at most one child: the child replaces the node |
| `AvlMap.RemoveFrom` | AvlTree.java:174-193 | remove keeps a balanced search tree whose map is the old one less x; an absent key changes nothing |
| `AvlMap.AvlTree.constructor` | AvlTree.java:34-36 | an empty tree |
| `AvlMap.AvlTree.IsEmpty` | AvlTree.java:43-45 | true exactly when the map is empty |
| `AvlMap.AvlTree.Put` | AvlTree.java:52-54 | stays a balanced search tree; map[x := y] |
| `AvlMap.AvlTree.Get` | AvlTree.java:60-62 | the map's value or null |
| `AvlMap.AvlTree.Remove` | AvlTree.java:68-70 | stays a balanced search tree; the map loses x; absent is no error |
| `AvlMap.AvlTree.ToString` | AvlTree.java:78-82 | NoSuchElement exactly when empty; otherwise the map's pairs ascending by key |
| `AvlMap.AvlTree.PrintMostFrequent` | AvlTree.java:91-111 | NoSuchElement on an empty tree, the Java exceptions for n <= 0, otherwise the top n |
| `SplayMap.AssembleLeftListing` | SplayTree.java:344-346 | hanging a subtree into the left tree lists the left tree's nodes before it |
| `SplayMap.AssembleRightListing` | SplayTree.java:345-347 | hanging a subtree into the right tree lists it before the right tree's nodes |
| `SplayMap.RotateWithLeftChild` | SplayTree.java:355-361 | the left child becomes the root with the same listing |
| `SplayMap.RotateWithRightChild` | SplayTree.java:367-373 | the right child becomes the root with the same listing |
| `SplayMap.WalkRotateLeft` | SplayTree.java:322-324 | the zig-zig rotation keeps the walk's state |
| `SplayMap.WalkRotateRight` | SplayTree.java:331-333 | the mirror rotation keeps it |
| `SplayMap.WalkLinkRight` | SplayTree.java:327-330 | linking a node above x into the right tree keeps the walk's state |
| `SplayMap.WalkLinkLeft` | SplayTree.java:336-339 | linking a node below x into the left tree keeps the walk's state |
| `SplayMap.Splay` | SplayTree.java:311-349 | splay keeps the listing and, on a search tree, the order and the map; all keys left of the root are below x and all right of it above x |
| `SplayMap.SplayAssembled` | SplayTree.java:340-348 | the reassembled tree lists the original tree and has x's neighbours on the right sides |
| `SplayMap.SplayedRoot` | SplayTree.java:311-349 | after a splay, x is in the tree exactly when it is at the root |
| `SplayMap.InsertedAbove` | SplayTree.java:184-188 | a key below the splayed root goes on top, taking the root's left subtree: the map gains x |
| `SplayMap.InsertedBelow` | SplayTree.java:189-193 | the mirror case above the root |
| `SplayMap.RemovedRootWithoutLeft` | SplayTree.java:107-108 | a root without a left subtree is replaced by its right subtree, removing its key |
| `SplayMap.RemovedSplayedRoot` | SplayTree.java:109-115 | splaying x in the left subtree brings its largest key up with nothing to its right, and hanging the right subtree there removes x |
| `SplayMap.SplayTree.constructor` | SplayTree.java:51-55 | an empty tree |
| `SplayMap.SplayTree.IsEmpty` | SplayTree.java:62-64 | true exactly when the map is empty |
| `SplayMap.SplayTree.Put` | SplayTree.java:172-199 | stays a search tree; map[x := y]; the new pair is at the root |
| `SplayMap.SplayTree.Get` | SplayTree.java:81-89 | the map's value or null; the map is unchanged, and a found key is at the root |
| `SplayMap.SplayTree.Remove` | SplayTree.java:99-117 | stays a search tree whose map loses x; absent is no error |
| `SplayMap.SplayTree.ToString` | SplayTree.java:126-131 | NoSuchElement exactly when empty; otherwise the map's pairs ascending |
| `SplayMap.SplayTree.PrintMostFrequent` | SplayTree.java:140-162 | NoSuchElement on an empty tree, the Java exceptions for n <= 0, otherwise the top n |
| `RedBlackMap.BlackHeightSize` | RedBlackTree.java:37-41 | a tree all of whose paths meet h black nodes holds at least 2^h - 1 nodes |
| `RedBlackMap.HeightBlackHeight` | RedBlackTree.java:37-41 | without red-red pairs the height is at most twice the black height, plus one for a red root |
| `RedBlackMap.RedBlackLogarithmic` | RedBlackTree.java:37-41 | a red-black tree is at most about twice as high as log2 of its size |
| `RedBlackMap.RotateWithLeftChild` | RedBlackTree.java:380-386 | the left child moves up; the listing is the same |
| `RedBlackMap.RotateWithRightChild` | RedBlackTree.java:391-397 | the right child moves up; the listing is the same |
| `RedBlackMap.RotateToward` | RedBlackTree.java:366-375 | rotate picks the rotation by the side of x; the listing is the same |
| `RedBlackMap.Flip` | RedBlackTree.java:340-342 | the colour flip makes the node red and its children black, keeping the listing |
| `RedBlackMap.Compare` | RedBlackTree.java:247-252 | the header compares above everything; a node compares by key |
| `RedBlackMap.Rotated` | RedBlackTree.java:344-351 | the grandparent's subtree after the single or double rotation is black-rooted with the same listing |
| `RedBlackMap.Reorient` | RedBlackTree.java:338-353 | handleReorient keeps the whole tree's listing and a walk consistent with x; under a red parent the new subtree top is black and the search for x grows by at most one step, otherwise its length is unchanged |
| `RedBlackMap.FlipRepair` | RedBlackTree.java:340-353 | a flip without rotation, under a black parent or at the root, keeps the tree red-black |
| `RedBlackMap.RotationFixes` | RedBlackTree.java:344-351 | whatever the zig shape, the repaired subtree is red-black and one black level above the flipped node |
| `RedBlackMap.RotateRepair` | RedBlackTree.java:344-352 | the rotation case in place keeps the whole tree red-black |
| `RedBlackMap.ReorientHead` | RedBlackTree.java:267-276 | handleReorient at a node with two red children gives the loop's invariant again |
| `RedBlackMap.RootHead` | RedBlackTree.java:263-275 | the loop's invariant holds at the root |
| `RedBlackMap.ReorientNew` | RedBlackTree.java:284-293 | the new red node's handleReorient leaves the tree red-black |
| `RedBlackMap.OverwriteKeeps` | RedBlackTree.java:279-283 | overwriting a found node's value keeps the tree red-black |
| `RedBlackMap.Splice` | RedBlackTree.java:284-292 | the pair goes between the keys below and above x, keeping the listing ascending and holding exactly the updated pairs |
| `RedBlackMap.PutListing` | RedBlackTree.java:262-294 | a listing spliced this way is that of a search tree for map[x := y], one node larger exactly when x is new |
| `RedBlackMap.NewListing` | RedBlackTree.java:284-293 | the new node at the end of the walk gives map[x := y] with one node more |
| `RedBlackMap.Insert` | RedBlackTree.java:262-294 | insert keeps the tree red-black; on a search tree it keeps the order, maps x to y and adds a node exactly when x is new |
| `RedBlackMap.Find` | RedBlackTree.java:315-329 | the sentinel-stopped walk returns what the plain search returns: the map's value or null |
| `RedBlackMap.PreOrderPermutes` | RedBlackTree.java:203-217 | the pre-order listing is a permutation of the entries |
| `RedBlackMap.FindMinFrequency` | RedBlackTree.java:203-217 | the result is min or one of the tree's entries |
| `RedBlackMap.FindMinFrequencyIsFirstMinimum` | RedBlackTree.java:203-217 | findMinFrequency (strict <) is the first minimum of the seed and the pre-order listing |
| `RedBlackMap.FindMinFrequencyLeast` | RedBlackTree.java:203-217 | findMinFrequency(root, root) is no larger than any value in the tree |
| `RedBlackMap.MostFrequent` | RedBlackTree.java:123-143 | on a non-empty tree the printed slots are the top n of the seed and the tree's entries |
| `RedBlackMap.RedBlackTree.constructor` | RedBlackTree.java:63-68 | an empty tree |
| `RedBlackMap.RedBlackTree.IsEmpty` | RedBlackTree.java:75-77 | true exactly when the map is empty |
| `RedBlackMap.RedBlackTree.Put` | RedBlackTree.java:84-89 | stays a red-black search tree; map[x := y]; one node more exactly when x is new |
| `RedBlackMap.RedBlackTree.Get` | RedBlackTree.java:96-102 | the map's value or null |
| `RedBlackMap.RedBlackTree.Remove` | RedBlackTree.java:304-306 | always UnsupportedOperation |
| `RedBlackMap.RedBlackTree.ToString` | RedBlackTree.java:110-114 | NoSuchElement exactly when empty; otherwise the map's pairs ascending |
| `RedBlackMap.RedBlackTree.PrintMostFrequent` | RedBlackTree.java:123-143 | NoSuchElement on an empty tree, the Java exceptions for n <= 0, otherwise the top n |
| `Records.Find` | HashSet.java:88-98 | the data of the first record with the key, or null |
| `Records.FindIsFirst` | HashSet.java:91-96 | Find answers the data of the first record with the key, and None exactly when no record has it |
| `Records.FindOverwrite` | HashSet.java:71-82 | after the overwrite x finds y and every other key finds what it did |
| `Records.OverwriteAt` | HashSet.java:73-79 | put's scan stops at the first record with key x and overwrites it in place |
| `Records.OverwriteFirstAt` | HeapPriorityQueue.java:121-131 | overwriting the first record of x at j: x finds y, the others are unchanged, unique keys stay unique |
| `Records.DistinctKeysUnique` | HeapPriorityQueue.java:121-131 | distinct keys along a sequence are unique keys of its records, and back |
| `Records.FindByContents` | HeapPriorityQueue.java:54-63 | with unique keys, what a key finds depends on the records alone, not their order |
| `Records.FindNewKey` | HashSet.java:139-148 | a record added under a new key is what that key then finds |
| `HashTable.Rem` | HashSet.java:266-268 | Java's %: the remainder takes the dividend's sign and is smaller than the divisor |
| `HashTable.HashSet.HashFunction` | HashSet.java:265-268 | the bucket of a key lies in 0..length-1 unless its hash code is Integer.MIN_VALUE, which gives a bucket of 0 or below |
| `HashTable.HashIndex` | HashSet.java:266-268 | the bucket lies in 0..len-1 except for hash code Integer.MIN_VALUE, whose bucket is negative or zero |
| `HashTable.HashIndexOfMin` | HashSet.java:266-268 | that bucket is negative for every length passing getPrime's test, so every operation on the key is an ArrayIndexOutOfBounds |
| `HashTable.PassesInitialSize` | HashSet.java:28 | the initial 31 passes the test |
| `HashTable.LargestPassing` | HashSet.java:306-321 | the largest number up to m that passes the divisor test, and no larger one up to m passes |
| `HashTable.SecondRehashIsSquare` | HashSet.java:306-321 | from 31 buckets the capacities go 31, 61, 121, and 121 = 11 * 11 |
| `HashTable.DivisorLoopDecides` | HashSet.java:310-316 | after the divisor loop stops on its own at i, the test passes exactly when it ran and met no divisor |
| `HashTable.GetPrime` | HashSet.java:306-321 | getPrime(n) is the largest number up to 2n - 1 that passes the test |
| `HashTable.DivisorLoop` | HashSet.java:310-316 | the flag ends true exactly when the candidate passes the test |
| `HashTable.FlattenMembers` | HashSet.java:203-220 | a record is listed exactly when it is in some bucket |
| `HashTable.LookupInBucket` | HashSet.java:88-98 | with every record in its bucket, a key's first record in the table is the first in its chain |
| `HashTable.RemoveFirstDataIsFirst` | HashSet.java:173-194 | with data v present, exactly its first record leaves the chain |
| `HashTable.RemoveFirstData` | HashSet.java:173-194 | the chain after remove loses one record exactly when some record's data equals the argument, and gains none |
| `HashTable.Unlink` | HashSet.java:173-194 | the chain surgery of remove unlinks the first record whose data is v |
| `HashTable.OverwriteFirst` | HashSet.java:71-82 | put's overwrite keeps every record in its bucket; x then finds y and every other key what it did |
| `HashTable.Linked` | HashSet.java:139-148 | add's link at the head keeps every record in its bucket and adds the record |
| `HashTable.ShrinkChain` | HashSet.java:173-194 | remove keeps records in their buckets and loses one exactly when a record had data v |
| `HashTable.ContainsComparesData` | HashSet.java:157-194 | a table with one record, key 1 and data 5: contains(1) is false and remove(1) unlinks nothing while get(1) finds 5 |
| `HashTable.FindRemoveFirstKey` | HashSet.java:173-194 | unlinking the first record of x leaves other keys alone; with unique keys x then finds nothing |
| `HashTable.RemoveFirstKey` | HashSet.java:173-194 | the corrected chain loses one record exactly when x has a record, and gains none |
| `HashTable.UnlinkKey` | HashSet.java:173-194 | the key-comparing walk unlinks exactly the first record of x |
| `HashTable.RemovedKey` | HashSet.java:173-194 | the key-comparing remove: one record fewer exactly when x was present, others unaffected, x gone with unique keys |
| `HashTable.OfferChain` | HashSet.java:111-121 | the chain walk offers every record of the chain to the buffer, head first |
| `HashTable.HashSet.constructor` | HashSet.java:44-47 | 31 empty buckets |
| `HashTable.HashSet.IsEmpty` | HashSet.java:54-56 | true exactly when there are no records |
| `HashTable.HashSet.Size` | HashSet.java:63-65 | the number of records |
| `HashTable.HashSet.Get` | HashSet.java:88-98 | the data of x's first record or null; MIN_VALUE hash is an index error |
| `HashTable.HashSet.Contains` | HashSet.java:157-167 | whether a record in the argument's bucket has data equal to the argument |
| `HashTable.HashSet.Remove` | HashSet.java:173-194 | the argument's bucket loses its first record with that data, and size drops by one exactly then |
| `HashTable.HashSet.ContainsKey` | HashSet.java:157-167 | corrected contains: whether x has a record |
| `HashTable.HashSet.RemoveKey` | HashSet.java:173-194 | corrected remove: x's first record leaves, other keys are unaffected, and with unique keys x is gone |
| `HashTable.HashSet.Put` | HashSet.java:71-82 | overwrite in place when x is present, else a new record; x finds y; other keys and unique keys are kept |
| `HashTable.HashSet.Add` | HashSet.java:139-148 | rehash first when the load is at least 3/4, then one new record; the load before the link is then below 3/4 |
| `HashTable.HashSet.Rehash` | HashSet.java:283-297 | the same records and size in a fresh valid array, each in its bucket; its length is getPrime(length) whenever (size - 1) / getPrime(length) is below 3/4 |
| `HashTable.HashSet.AddAll` | HashSet.java:291-295 | re-adding one old chain adds exactly its records |
| `HashTable.HashSet.ToString` | HashSet.java:203-220 | the records bucket by bucket, each chain from its head |
| `HashTable.HashSet.FindMinValue` | HashSet.java:243-257 | null exactly when empty; otherwise the first record of least data in that order |
| `HashTable.HashSet.FillMostFrequent` | HashSet.java:109-123 | every record is offered to the buffer in bucket order |
| `HashTable.HashSet.PrintMostFrequent` | HashSet.java:105-128 | exceptions for n <= 0, for an empty table and for free slots; otherwise the top n of the seed and the records |
| `HeapQueue.Parent` | HeapPriorityQueue.java:259-261 | a slot's parent is above it and has it as a child |
| `HeapQueue.ChildrenOfParent` | HeapPriorityQueue.java:270-283 | both children of a slot have it as their parent |
| `HeapQueue.RootIsLeast` | HeapPriorityQueue.java:159-164 | in a heap the root's key is the least among slots 1..n |
| `HeapQueue.RemovedRoot` | HeapPriorityQueue.java:173-201 | after the move and the bubble-down the slots hold the old entries less the root's, with distinct keys |
| `HeapQueue.DrainStep` | HeapPriorityQueue.java:224-230 | each drained least entry joins the drained ones in ascending key order, below every entry left |
| `HeapQueue.Overwritten` | HeapPriorityQueue.java:121-131 | add's overwrite keeps the heap order and distinct keys; key finds the new value, other keys what they did |
| `HeapQueue.Appended` | HeapPriorityQueue.java:133-149 | a new entry stored and bubbled up: the old entries plus it, distinct keys, key finds its value |
| `HeapQueue.SwapKeeps` | HeapPriorityQueue.java:329-333 | exchanging two slots of 1..n keeps their entries and every other slot |
| `HeapQueue.UpSwap` | HeapPriorityQueue.java:141-143 | one bubble-up swap moves the invariant's exception to the parent |
| `HeapQueue.UpDone` | HeapPriorityQueue.java:139-147 | the bubble-up stops at the root or under a smaller parent: a heap |
| `HeapQueue.DownStart` | HeapPriorityQueue.java:177-178 | moving the last slot to the root starts the bubble-down |
| `HeapQueue.SmallerChildLeast` | HeapPriorityQueue.java:184-190 | the chosen child is no larger than either child |
| `HeapQueue.DownSwap` | HeapPriorityQueue.java:192-194 | one bubble-down swap moves the exception to the child |
| `HeapQueue.DownDone` | HeapPriorityQueue.java:183-198 | the bubble-down stops without a child or under no larger child: a heap |
| `HeapQueue.MostFrequentAsWritten` | HeapPriorityQueue.java:83-99 | the as-written selection prints at most n entries |
| `HeapQueue.MostFrequentFixed` | HeapPriorityQueue.java:83-99 | the corrected selection prints at most n entries |
| `HeapQueue.MostFrequentAsWrittenDraws` | HeapPriorityQueue.java:82-105 | the printed entries are sorted by value, at most n, from the seed and slots 1..size-1 |
| `HeapQueue.ScanSkipsLastSlot` | HeapPriorityQueue.java:89 | with slot 2 holding frequency 9, PrintMostFrequent(1) prints the root's frequency 1 |
| `HeapQueue.SeedAboveMinimum` | HeapPriorityQueue.java:87 | seeding with the least key drops an entry of smaller value that the top 3 should hold |
| `HeapQueue.MostFrequentFixedIsTop` | HeapPriorityQueue.java:82-105 | the corrected selection prints the top n of the seed and every entry |
| `HeapQueue.SeedBuffer` | HeapPriorityQueue.java:86-87 | a fresh n-slot buffer with only slot n-1 holding the seed |
| `HeapQueue.OfferDown` | HeapPriorityQueue.java:89-99 | slots hi down to 1 are offered in turn |
| `HeapQueue.Swap` | HeapPriorityQueue.java:329-333 | the array with two slots exchanged |
| `HeapQueue.CopyOf` | HeapPriorityQueue.java:117-119 | a fresh longer array, the old slots first, then null slots |
| `HeapQueue.HeapPriorityQueue.constructor` | HeapPriorityQueue.java:28-31 | an empty heap of 20 slots |
| `HeapQueue.HeapPriorityQueue.IsEmpty` | HeapPriorityQueue.java:38-40 | true exactly when no entries |
| `HeapQueue.HeapPriorityQueue.Size` | HeapPriorityQueue.java:208-210 | the number of entries |
| `HeapQueue.HeapPriorityQueue.Get` | HeapPriorityQueue.java:54-63 | the first slot's value for the key or null; some v is found exactly when (key, v) is stored |
| `HeapQueue.HeapPriorityQueue.Remove` | HeapPriorityQueue.java:71-73 | always UnsupportedOperation |
| `HeapQueue.HeapPriorityQueue.Peek` | HeapPriorityQueue.java:159-164 | NoSuchElement exactly when empty; else the least key |
| `HeapQueue.HeapPriorityQueue.Grow` | HeapPriorityQueue.java:117-119 | twice the length, same entries |
| `HeapQueue.HeapPriorityQueue.BubbleUp` | HeapPriorityQueue.java:137-147 | slots 1..n a heap with the same entries, the rest unchanged |
| `HeapQueue.HeapPriorityQueue.BubbleDown` | HeapPriorityQueue.java:181-198 | slots 1..size a heap with the same entries |
| `HeapQueue.HeapPriorityQueue.Add` | HeapPriorityQueue.java:115-150 | stays a heap with distinct keys; a known key is overwritten, a new one appended; the array doubles when full |
| `HeapQueue.HeapPriorityQueue.Insert` | HeapPriorityQueue.java:121-149 | with room in the array: a known key is overwritten in place with the size unchanged, a new key adds one entry; x then finds y and other keys are kept |
| `HeapQueue.HeapPriorityQueue.SetSlot` | HeapPriorityQueue.java:123-129 | overwriting the first slot holding the key keeps a heap in which the key finds the new value and other keys are kept |
| `HeapQueue.HeapPriorityQueue.Append` | HeapPriorityQueue.java:133-149 | a new key stored at slot size + 1 and bubbled up: size grows by one, the entries gain exactly the new pair, and the heap stays valid |
| `HeapQueue.HeapPriorityQueue.FindSlot` | HeapPriorityQueue.java:121-131 | the first slot holding the key, or 0 when none does |
| `HeapQueue.HeapPriorityQueue.Put` | HeapPriorityQueue.java:46-48 | the same as Add |
| `HeapQueue.HeapPriorityQueue.RemoveMin` | HeapPriorityQueue.java:173-201 | NoSuchElement on an empty heap; else the least key leaves and the rest stays a heap |
| `HeapQueue.HeapPriorityQueue.ToString` | HeapPriorityQueue.java:219-235 | the entries in ascending key order, and the heap afterwards holds the same entries |
| `HeapQueue.HeapPriorityQueue.Drain` | HeapPriorityQueue.java:224-230 | removes every entry, in ascending key order |
| `HeapQueue.HeapPriorityQueue.DrainOne` | HeapPriorityQueue.java:225-229 | one round stores the least key's entry after the earlier ones, still ascending, and remove() takes it out of the heap |
| `HeapQueue.HeapPriorityQueue.Refill` | HeapPriorityQueue.java:231-233 | adds the drained entries back |
| `HeapQueue.HeapPriorityQueue.RefillOne` | HeapPriorityQueue.java:231-233 | one add of the next drained entry, larger than every stored key, appends it |
| `HeapQueue.HeapPriorityQueue.PrintMostFrequent` | HeapPriorityQueue.java:82-105 | NoSuchElement when empty, NegativeArraySize for n < 0, an index failure for n = 0; else what the as-written selection prints |
| `HeapQueue.HeapPriorityQueue.FindMinValue` | HeapPriorityQueue.java:87 | the first slot of least frequency |
| `HeapQueue.HeapPriorityQueue.PrintMostFrequentFixed` | HeapPriorityQueue.java:82-105 | the corrected selection: the top n of all entries |
| `BlockPool.FirstFit` | ccode/heap/my_heap.c:81-106 | the index of the first free block at least as large as the request, or the length |
| `BlockPool.SplitKeeps` | ccode/heap/my_heap.c:88-103 | splitting keeps the list contiguous, non-negative and of the same total |
| `BlockPool.TakeKeeps` | ccode/heap/my_heap.c:85-87 | an exact take changes only the free flag |
| `BlockPool.AllocateKeeps` | ccode/heap/my_heap.c:59-108 | my_malloc keeps the pool's invariant and first address |
| `BlockPool.AllocateFails` | ccode/heap/my_heap.c:59-108 | NULL exactly when the request exceeds the total or no free block fits |
| `BlockPool.AllocateFirstFit` | ccode/heap/my_heap.c:81-106 | the address is that of the first fitting block; blocks before it are unchanged; it becomes taken |
| `BlockPool.CoalesceSum` | ccode/heap/my_heap.c:122-155 | combine keeps the total |
| `BlockPool.CoalesceShape` | ccode/heap/my_heap.c:122-155 | combine keeps the list contiguous with non-negative sizes |
| `BlockPool.CoalesceKeeps` | ccode/heap/my_heap.c:122-155 | combine keeps the invariant and first address |
| `BlockPool.CoalesceCoalesced` | ccode/heap/my_heap.c:122-155 | after combine no two neighbouring blocks are free |
| `BlockPool.CoalesceIdempotent` | ccode/heap/my_heap.c:122-155 | combine changes nothing with no two free neighbours |
| `BlockPool.CoalesceCovers` | ccode/heap/my_heap.c:122-155 | each block lies within a combined block of the same flag |
| `BlockPool.ReleaseFrees` | ccode/heap/my_heap.c:158-172 | my_free keeps the invariant, leaves no free neighbours, and the freed bytes lie in a free block |
| `BlockPool.FreeUp` | ccode/heap/my_heap.c:111-119 | the bytes freed up are the size sum of the nodes after beg up to end |
| `BlockPool.MergeRun` | ccode/heap/my_heap.c:127-151 | merges the run of free blocks at slot i into its first block |
| `BlockPool.CombineList` | ccode/heap/my_heap.c:122-155 | the walk's result is Coalesce of the list |
| `BlockPool.Pool.constructor` | ccode/heap/my_heap.c:32-34 | no pool: head NULL, total 0 |
| `BlockPool.Pool.CreatePool` | ccode/heap/my_heap.c:37-56 | one free block of all the bytes |
| `BlockPool.Allocate` | ccode/heap/my_heap.c:59-108 | NULL without a pool or for a request above the total; NULL leaves the blocks unchanged; an address returned starts one of the old blocks |
| `BlockPool.Coalesce` | ccode/heap/my_heap.c:122-155 | combine never lengthens the list and keeps the first block's address and flag |
| `BlockPool.FindStart` | ccode/heap/my_heap.c:163-171 | the first block starting at the address, or none exactly when no block starts there |
| `BlockPool.Release` | ccode/heap/my_heap.c:158-172 | an address that starts no block leaves the blocks unchanged |
| `BlockPool.Pool.Malloc` | ccode/heap/my_heap.c:59-108 | the blocks and the address `Allocate` describes |
| `BlockPool.Pool.Combine` | ccode/heap/my_heap.c:122-155 | the blocks become Coalesce of the old blocks |
| `BlockPool.Pool.Free` | ccode/heap/my_heap.c:158-172 | the blocks become Release of the address |
| `BlockPool.Pool.DestroyPool` | ccode/heap/my_heap.c:175-187 | no blocks; the total drops to 0 unless there was no pool; one node record is released per old block |
| `BlockPool.AllocateSplitsAt` | ccode/heap/my_heap.c:88-103 | a request split from the first fitting block gives its address |
| `BlockPool.AllocateTakesAt` | ccode/heap/my_heap.c:85-87 | an exact fit takes the block whole |
| `BlockPool.AllocateNoFit` | ccode/heap/my_heap.c:107 | no block fits: NULL and nothing changes |
| `BlockPool.FiveRequests` | ccode/heap/mallok_test.c:37-60 | five 200-byte requests from a pool of 1000 get consecutive addresses and fill it |
| `BlockPool.FreeAllRestores` | ccode/heap/mallok_test.c:37-60 | freeing them in order gives back the fresh pool |
| `BlockPool.FreeMiddleBlock` | ccode/heap/mallok_test.c:71-119 | freeing the middle block frees it alone, and 210 bytes then fail |
| `BlockPool.RefillMiddleBlock` | ccode/heap/mallok_test.c:71-119 | 150 bytes get the freed address, 60 fail, 50 get the rest |
| `BlockPool.HeadSplitReachable` | ccode/heap/my_heap.c:96-98 | a reachable state in which a request splits the head block |
| `WordFrequency.Dif` | ccode/list/list.c:68-71 | non-negative, and equal to one count minus the other |
| `WordFrequency.IndexOf` | ccode/list/list.c:29-40 | the first record of the word, or None exactly when no record has it |
| `WordFrequency.AddWordAbsent` | ccode/list/list.c:48-65 | a new word gets a head record counted once in its book |
| `WordFrequency.AddWordPresent` | ccode/list/list.c:60-63 | a known word's count in the named book rises by one |
| `WordFrequency.AddWordKeeps` | ccode/list/list.c:48-65 | add keeps one record per word |
| `WordFrequency.AddWordCounts` | ccode/list/list.c:48-65 | the word's count in its book rises by one; every other count is unchanged |
| `WordFrequency.AddEachCounts` | ccode/list/list.c:48-65 | after a book's words, each count grows by its number of occurrences; the other book's counts are unchanged |
| `WordFrequency.PassStepKeeps` | ccode/list/list.c:100-105 | a compare-and-swap step keeps the pass invariant |
| `WordFrequency.SwapKeeps` | ccode/list/list.c:74-87 | exchanging records keeps the multiset and one record per word |
| `WordFrequency.WordList.constructor` | ccode/list/list.c:24-26 | the empty list |
| `WordFrequency.WordList.Find` | ccode/list/list.c:29-40 | the walk returns IndexOf |
| `WordFrequency.AddWord` | ccode/list/list.c:48-65 | the list grows by one exactly when the word was absent, and afterwards the word has a record |
| `WordFrequency.WordList.Add` | ccode/list/list.c:48-65 | the records become AddWord of the old ones |
| `WordFrequency.WordList.Swap` | ccode/list/list.c:74-87 | two records exchanged, nothing else |
| `WordFrequency.WordList.SortPass` | ccode/list/list.c:99-105 | one pass settles one more record at the tail and keeps the multiset |
| `WordFrequency.WordList.Sort` | ccode/list/list.c:90-109 | the same records, one per word, with non-increasing differences |
| `CustomerPurchase.FindAsWritten` | ccode/customerpurchase/main.c:38-47 | the lowest index in 0..size with the name, or -1 |
| `CustomerPurchase.LookUp` | ccode/customerpurchase/main.c:38-47 | the lowest index in 0..size-1 with the name, or -1 |
| `CustomerPurchase.FindAgreesWithLookUp` | ccode/customerpurchase/main.c:41 | the two agree unless slot size holds the name |
| `CustomerPurchase.AddFixedFiles` | ccode/customerpurchase/main.c:53-70 | the corrected add keeps names distinct, grows by one exactly for a new name, and files the purchase under its customer only |
| `CustomerPurchase.NoPurchases` | ccode/customerpurchase/main.c:53-70 | an unknown name has no purchases |
| `CustomerPurchase.StaleSlotLosesPurchase` | ccode/customerpurchase/main.c:41 | the as-written add files a purchase beyond the table, where it is lost |
| `CustomerPurchase.Find` | ccode/customerpurchase/main.c:38-47 | the loop returns FindAsWritten |
| `CustomerPurchase.AddAsWritten` | ccode/customerpurchase/main.c:53-70 | the table keeps its length, and the size grows by one exactly when find (0..size inclusive) misses |
| `CustomerPurchase.AddFixed` | ccode/customerpurchase/main.c:53-70 | the corrected add keeps the table length and grows the size exactly when the name is not among the records in use |
| `CustomerPurchase.Add` | ccode/customerpurchase/main.c:53-70 | on a table of NUM_CUST records the table becomes AddAsWritten and the returned size is its size |
| `CustomerPurchase.BubbleStepKeeps` | ccode/customerpurchase/main.c:109-114 | one compare-and-swap keeps the pass invariant |
| `CustomerPurchase.PassEnds` | ccode/customerpurchase/main.c:108-115 | after a pass the least value of the prefix is at its end |
| `CustomerPurchase.SortPass` | ccode/customerpurchase/main.c:108-115 | one pass keeps the items and settles one more |
| `CustomerPurchase.SortItems` | ccode/customerpurchase/main.c:105-117 | the first size items become a non-increasing permutation; the rest is unchanged |
| `ImageCombine.Average` | ccode/image/iman.c:45 | the byte lies between the two, and twice it is their sum or one less |
| `ImageCombine.Blend` | ccode/image/iman.c:37-48 | every cell is the average of the two images' cells |
| `ImageCombine.CopyTile` | ccode/image/iman.c:70-78 | one tile copied from the chosen image, nothing else changed |
| `ImageCombine.CheckRow` | ccode/image/iman.c:68-80 | the row's tiles alternate from the starting image; the flag flips once per tile |
| `ImageCombine.StartTurn` | ccode/image/iman.c:58-67 | the flag for row 0 is false after the band flip, so the first row starts from the second image |
| `ImageCombine.FromOne` | ccode/image/iman.c:68-79 | in the first row exactly the odd tiles come from the first image |
| `ImageCombine.Checked` | ccode/image/iman.c:68-80 | every cell check writes equals the first or the second image at the same place |
| `ImageCombine.SmallImageTilesVanish` | ccode/image/iman.c:59-68 | for 1 to 7 rows or columns the tile side is 0: a modulo by zero, or a column step that adds nothing; no such shape passes CheckShape |
| `ImageCombine.TileSize` | ccode/image/iman.c:59-60 | the intended tile side is at least one pixel and at most the image side, and equals the side / 8 of the code whenever the side is 8 or more |
| `ImageCombine.Check` | ccode/image/iman.c:53-82 | every cell comes from the image the turn flag chose for its tile |
| `ImageCombine.TilesAlternate` | ccode/image/iman.c:68-80 | neighbouring tiles come from different images |
| `ImageCombine.EvenTilesBands` | ccode/image/iman.c:62-67 | with an even tile count, a row starts from the first image exactly in the odd bands |
| `ImageCombine.EvenTilesCheckerboard` | ccode/image/iman.c:53-82 | with an even tile count check lays the intended checkerboard |
| `ImageCombine.IntendedAlternates` | ccode/image/iman.c:53-82 | in the intended board neighbouring tiles differ, both along a row and across bands |
| `ImageCombine.OddTilesStripes` | ccode/image/iman.c:62-80 | with 8 rows and 27 columns every row starts alike: stripes, not a checkerboard |
| `ImageCombine.IntendedFromOne` | ccode/image/iman.c:50-53 | in the intended board the first band has exactly its odd tiles from the first image |

## Left out

- Printing: `System.out.print` output and `toString` text are modelled as the entry sequences they print; the "key=value, " formatting is not modelled.
- Node identity and in-place pointer surgery: tree nodes are values, so sharing and aliasing of Java nodes are not modelled.
- The splay and red-black sentinels (`nullNode` with a temporary key, the `header`) are modelled by the walk's logic, not as shared mutable objects.
- RedBlackMap.Insert: Java's `great`/`grand`/`parent` fields can go stale after a rotation; the model keeps the true path. On valid trees the stale values are never used for a rotation, so the tree computed is the same.
- AvlMap.CheckBalance: the printing of the imbalance message is left out; the check is modelled by what it decides.
- HashTable.GetPrime: `2n - 1` overflows `int` for n above 2^30; the model requires n <= 2^30.
- HashTable.HashSet.Add: requires size < 0x3000_0000 so that the capacity never overflows `int`; the load bound after a rehash assumes getPrime finds a large enough number, because Bertrand's postulate is not proved here.
- HashTable.HashSet.Contains: keys and data are both `int` here, so a record whose data equals the argument, such as (5, 5) for contains(5), answers true. With the program's own `<String, Integer>` instance a string argument never equals an `Integer` datum, so contains always answers false.
- HashTable.HashSet.Remove: for the same reason a record whose data equals the argument is unlinked here; with `<String, Integer>` remove never unlinks anything.
- HashTable.HashSet: `hashCode` is a parameter function from keys to 32-bit ints; `Math.sqrt` in getPrime is modelled as `i * i < p`, and the load factor `size / length >= 0.75` as `4 * size >= 3 * length`.
- HeapQueue.HeapPriorityQueue.Grow: `data.length * 2` is not checked for `int` overflow; null slots are `Vacant`.
- The `PrintMostFrequent` arrays are created before the n == 0 check; in the model, n < 0 and n = 0 give the exceptions Java throws.
- BlockPool: the system `malloc` and its failure and `exit` are left out; the pool's base address is a parameter, and node storage is not modelled.
- BlockPool.Pool.DestroyPool: head is left dangling in C; the model empties the list.
- BlockPool.Pool.Malloc: requires that the request does not split the head block of a list of two or more blocks, where the C code dereferences a NULL `prev` (see Findings).
- `mallok_test.c` test_one (a counting loop) and test_four (storing characters in the blocks) are left out: they test the byte contents, which the model does not hold.
- WordFrequency: `print_csv` and the reading of the books in `main.c` are I/O and left out; the counters are unbounded (`int` overflow is not modelled).
- WordFrequency.WordList.Add: requires the word to fit the 31-byte node buffer, which `strcpy` would otherwise overrun; `strcmp` is modelled as equality of NUL-free strings.
- WordFrequency.WordList.Swap: the leaked `malloc` of the temporary string is not modelled, and neither are the node addresses (the head stays the same node trivially).
- CustomerPurchase: `readFile`, `outTime`, `outMoney`, `total_purchase` and `sortPurchaseValue` do I/O or double arithmetic and are left out.
- CustomerPurchase.SortItems: the purchase value `price * amount` is a `double`; it is an opaque key function, so rounding and NaN are not modelled.
- CustomerPurchase.Add: the items of a customer form a sequence with a room check (`NUM_ITEMS`) as a precondition; uninitialised slots beyond `size` are arbitrary records.
- ImageCombine: `main`, `buff` and `getThingy` do file I/O and are left out; the three buffers must be distinct arrays (no aliasing).
- ImageCombine.Check: requires `CheckShape`. With 1 to 7 rows the band height is 0 and `r % checkrow` divides by zero; with 1 to 7 columns the step `c += checkcol` adds 0 and the column loop never ends (see Findings); with columns not a multiple of the tile width the last tile of a row runs past its end. On the shapes it accepts, the code's tile sides equal `TileSize`.

## Findings

| source | as written | input that shows it | evidently intended | confidence | as-written member | corrected member |
|---|---|---|---|---|---|---|
| HeapPriorityQueue.java:89 | the scan offers slots size-1 down to 1, never slot size | slots [key 1 freq 1, key 2 freq 9], n = 1: prints key 1 | every slot offered | high, not executed | `HeapQueue.ScanSkipsLastSlot` | `HeapQueue.HeapPriorityQueue.PrintMostFrequentFixed`, `HeapQueue.MostFrequentFixedIsTop` |
| HeapPriorityQueue.java:87 | the seed is the root, the least key | slots [key 1 freq 5, key 2 freq 1], n = 3 | the seed is an entry of least frequency | high, not executed | `HeapQueue.SeedAboveMinimum` | `HeapQueue.HeapPriorityQueue.FindMinValue`, `HeapQueue.MostFrequentFixedIsTop` |
| HashSet.java:157-194 | contains and remove compare the data with the argument | one record (1, 5): contains(1) false, remove(1) does nothing | compare keys | high, not executed | `HashTable.ContainsComparesData` | `HashTable.HashSet.ContainsKey`, `HashTable.HashSet.RemoveKey` |
| AvlTree.java:343-356 | checkBalance returns the cached height, so its height test can never fail | a leaf claiming height 5 | compute the true height | medium, not executed | `AvlMap.CheckBalanceMissesStaleHeight` | `AvlMap.CheckBalanceFixedDecides` |
| ccode/heap/my_heap.c:98 | splitting the head block of a list of two or more dereferences the head's NULL prev | create_pool(1000); two requests of 200; free the first; request 100 | link the new block as the head | high, not executed | `BlockPool.HeadSplitReachable` | `BlockPool.AllocateKeeps` |
| ccode/customerpurchase/main.c:41 | find scans 0..size inclusive | slot size holds a stale record named "ann"; add "ann" files the purchase there | scan 0..size-1 | low, not executed | `CustomerPurchase.StaleSlotLosesPurchase` | `CustomerPurchase.AddFixedFiles` |
| ccode/image/iman.c:59-68 | the tile sides are rows / 8 and columns / 8 with no guard | rows = 5: `r % 0` divides by zero; columns = 5: `c += 0` never advances, so check never ends | tiles at least one pixel wide and high | high, not executed | `ImageCombine.SmallImageTilesVanish` | `ImageCombine.TileSize` |
| ccode/image/iman.c:62-80 | the turn flag is flipped at each band and by every tile | rows = 8, columns = 27: nine tiles to a row, every row starts alike | a checkerboard | medium, not executed | `ImageCombine.OddTilesStripes` | `ImageCombine.IntendedAlternates` |
