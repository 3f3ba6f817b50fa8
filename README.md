# JavaDataStructure core, modelled in Dafny

This project models three hand-written Java collections and proves what they promise:

- `MyPriorityQueue`: a binary min-heap over an array ordered by a comparator. It has offer, poll, remove, sift-up, sift-down, heapify and grow.
- `MyHashMap`: a table of power-of-two length with `hash & (n - 1)` bucket selection. It has get, put, containsKey, containsValue and a resize that doubles the table.
- `MyBlockingQueue`: a bounded circular buffer. It has enqueue, dequeue and the guard logic of put, take, and the timed offer and poll.

Files:

- `optional.dfy`: `Option`, standing for a Java reference that may be `null`.
- `priority_queue.dfy` (module `PriorityQueues`):
  - Class `PriorityQueue` holds an `array<Option<E>>`, where `None` is an empty slot, and a `size`.
  - The comparator is a function `compare: (E, E) -> int` that is a total preorder: the sign of `compare(a, b)` is the opposite of `compare(b, a)`, and `<= 0` is transitive.
  - Each sifting method is proved equal to a function on the slot sequence: `SiftUpSeq`, `SiftDownSeq`, `PollSeq` and `RemoveAtSeq`. Lemmas prove that these functions keep the heap order and the multiset of elements.
- `hash_map.dfy` (module `HashMaps`):
  - Class `HashMap` holds an `array<seq<Node>>`. Each bucket's linked chain is a sequence.
  - A ghost copy `buckets` of the table and a ghost `log` (the length is `2^log`) carry the layout invariant.
  - Hash codes are 32-bit vectors given by a function `hashCode`.
  - `Index(h, n)` computes `h & (n - 1)` bit by bit on the unsigned value of `h`. A lemma proves it is `h mod n` for a power of two `n`.
  - Resize's doubling branch, which allocates the new table and moves every bucket, sits in the method `Double`.
- `blocking_queue.dfy` (module `BlockingQueues`):
  - Class `BlockingQueue` holds `items`, `takeIndex`, `putIndex` and `count`.
  - Its contents are the window `Window(items, takeIndex, count)`.
  - `Slot` wraps an index the way the source does, by comparing it with the length. A lemma proves it equals the remainder.

## Model

Paths are relative to the repository root.

| member | source | states |
|---|---|---|
| PriorityQueues.Parent | src/main/java/com/terryx/datastructure/mypriorityqueue/MyPriorityQueue.java:146 | the parent `(j - 1) >>> 1` of slot j lies before j, and j is its left or right child (`2n+1` or `2(n+1)`) |
| PriorityQueues.RootIsAncestor | src/main/java/com/terryx/datastructure/mypriorityqueue/MyPriorityQueue.java:11-17 | slot 0 is an ancestor of every slot |
| PriorityQueues.AncestorPrecedes | src/main/java/com/terryx/datastructure/mypriorityqueue/MyPriorityQueue.java:11-17 | in a heap each node precedes every descendant (n <= d for each descendant d of n) |
| PriorityQueues.RootIsMinimum | src/main/java/com/terryx/datastructure/mypriorityqueue/MyPriorityQueue.java:16-17 | in a heap the element at slot 0 precedes every element held |
| PriorityQueues.SiftUpStep | src/main/java/com/terryx/datastructure/mypriorityqueue/MyPriorityQueue.java:145-152 | when x is less than the parent of the hole, moving that parent down keeps the order around the hole, which moves up |
| PriorityQueues.SiftDownStep | src/main/java/com/terryx/datastructure/mypriorityqueue/MyPriorityQueue.java:252-263 | when x is greater than the chosen child, moving that child up keeps the order around the hole, which moves down |
| PriorityQueues.FillHole | src/main/java/com/terryx/datastructure/mypriorityqueue/MyPriorityQueue.java:154 | writing x into a hole whose children follow x restores the order, except above the hole |
| PriorityQueues.MoveIntoHole | src/main/java/com/terryx/datastructure/mypriorityqueue/MyPriorityQueue.java:262-263 | moving a slot's element into the hole and the hole to that slot keeps the multiset |
| PriorityQueues.FillFromLast | src/main/java/com/terryx/datastructure/mypriorityqueue/MyPriorityQueue.java:180-183 | putting the last element at slot i of the first n slots removes exactly the element at slot i |
| PriorityQueues.SiftDownSeqUnfold | src/main/java/com/terryx/datastructure/mypriorityqueue/MyPriorityQueue.java:252-263 | one round of sift-down: x stops at k when it is not above the chosen child; otherwise that child moves up and x carries on from its slot |
| PriorityQueues.SiftUpSeq | src/main/java/com/terryx/datastructure/mypriorityqueue/MyPriorityQueue.java:144-155 | sift-up keeps the array length and leaves the slots after the hole untouched (its heap and move properties are the lemmas below) |
| PriorityQueues.SiftDownSeq | src/main/java/com/terryx/datastructure/mypriorityqueue/MyPriorityQueue.java:250-266 | sift-down keeps the array length and leaves the slots before the hole untouched (its heap, permutation and stay properties are the lemmas below) |
| PriorityQueues.SiftUpSeqHeap | src/main/java/com/terryx/datastructure/mypriorityqueue/MyPriorityQueue.java:144-155 | sift-up from a hole whose surroundings are ordered gives a heap that holds the old elements and x |
| PriorityQueues.SiftUpSeqMoves | src/main/java/com/terryx/datastructure/mypriorityqueue/MyPriorityQueue.java:144-155 | if x stays at slot k nothing moved; if not, x ends in a slot before k |
| PriorityQueues.SiftUpSeqOffPath | src/main/java/com/terryx/datastructure/mypriorityqueue/MyPriorityQueue.java:144-155 | every slot that is not on the path from the hole up to the root keeps its element |
| PriorityQueues.LesserChildLeads | src/main/java/com/terryx/datastructure/mypriorityqueue/MyPriorityQueue.java:253-258 | the child picked, the right one only when strictly smaller than the left, precedes both children |
| PriorityQueues.FollowsLesserChild | src/main/java/com/terryx/datastructure/mypriorityqueue/MyPriorityQueue.java:259-261 | when x is not above the picked child, x precedes both children |
| PriorityQueues.SiftDownSeqPermutes | src/main/java/com/terryx/datastructure/mypriorityqueue/MyPriorityQueue.java:250-266 | sift-down keeps the first n slots occupied and holds the old elements with x in place of the hole |
| PriorityQueues.SiftDownSeqStays | src/main/java/com/terryx/datastructure/mypriorityqueue/MyPriorityQueue.java:250-266 | if x is still at slot k afterwards, nothing else moved |
| PriorityQueues.SiftDownSeqHeap | src/main/java/com/terryx/datastructure/mypriorityqueue/MyPriorityQueue.java:250-266 | sift-down from a hole gives heap order below lo, and full order once x ends below its starting slot or its start's parent precedes x |
| PriorityQueues.ReadyToSiftUp | src/main/java/com/terryx/datastructure/mypriorityqueue/MyPriorityQueue.java:225-226 | if the moved last element stayed at slot i, sift-up may start from slot i |
| PriorityQueues.SiftUpAppended | src/main/java/com/terryx/datastructure/mypriorityqueue/MyPriorityQueue.java:113-119 | sifting e up from slot size of a heap gives a heap of size + 1 holding the old elements plus e |
| PriorityQueues.PollSeq | src/main/java/com/terryx/datastructure/mypriorityqueue/MyPriorityQueue.java:179-188 | poll's slots keep the array length (PollSeqSpec and PollTakesMinimum state what they hold) |
| PriorityQueues.PollSeqSpec | src/main/java/com/terryx/datastructure/mypriorityqueue/MyPriorityQueue.java:179-188 | poll's slots form a heap of the other n elements: exactly the old root is gone |
| PriorityQueues.PollTakesMinimum | src/main/java/com/terryx/datastructure/mypriorityqueue/MyPriorityQueue.java:179-188 | the root poll returns precedes every element left |
| PriorityQueues.HoleAtRemoved | src/main/java/com/terryx/datastructure/mypriorityqueue/MyPriorityQueue.java:222-224 | once the last slot of a heap is cleared, slot i can serve as sift-down's hole: the order around it holds |
| PriorityQueues.SiftDownReplacing | src/main/java/com/terryx/datastructure/mypriorityqueue/MyPriorityQueue.java:222-224 | sifting the last element down from slot i removes exactly the element at i, and gives a heap unless it stayed at i |
| PriorityQueues.SiftUpReplacing | src/main/java/com/terryx/datastructure/mypriorityqueue/MyPriorityQueue.java:225-228 | the following sift-up gives a heap with the same elements; x either stays put, changing nothing, or ends before slot i |
| PriorityQueues.RemoveAtSeq | src/main/java/com/terryx/datastructure/mypriorityqueue/MyPriorityQueue.java:217-232 | removeAt's slots keep the array length (RemoveAtSeqSpec states what they hold and what is returned) |
| PriorityQueues.RemoveAtSeqSpec | src/main/java/com/terryx/datastructure/mypriorityqueue/MyPriorityQueue.java:204-232 | removeAt leaves a heap holding all elements but the one at slot i; it returns the former last element only when that now sits before i, and null only when no slot before i changed |
| PriorityQueues.RemoveAtSeqLast | src/main/java/com/terryx/datastructure/mypriorityqueue/MyPriorityQueue.java:218-220 | removing the last element only clears its slot: the rest is still a heap holding every other element, and nothing is returned |
| PriorityQueues.RemoveAtSeqInner | src/main/java/com/terryx/datastructure/mypriorityqueue/MyPriorityQueue.java:221-231 | removing a slot before the last gives the heap, contents and result RemoveAtSeqSpec states |
| PriorityQueues.GrowLength | src/main/java/com/terryx/datastructure/mypriorityqueue/MyPriorityQueue.java:296 | the length as written never shrinks, and grows exactly when the old length is positive |
| PriorityQueues.GrowLengthStuckAtZero | src/main/java/com/terryx/datastructure/mypriorityqueue/MyPriorityQueue.java:293-298 | as written, growing a zero-length array gives length 0 |
| PriorityQueues.NewCapacity | src/main/java/com/terryx/datastructure/mypriorityqueue/MyPriorityQueue.java:293-298 | the corrected length is at least the requested minimum and the old length, and equals the source's formula when the old length is at least 1 and the minimum is at most one more than it (offer's `grow(size + 1)` on a full, non-empty array) |
| PriorityQueues.PriorityQueue.constructor | src/main/java/com/terryx/datastructure/mypriorityqueue/MyPriorityQueue.java:54-58 | an empty heap over a fresh array of the given capacity |
| PriorityQueues.PriorityQueue.Default | src/main/java/com/terryx/datastructure/mypriorityqueue/MyPriorityQueue.java:38-40 | an empty heap of capacity 11 |
| PriorityQueues.PriorityQueue.FromCollection | src/main/java/com/terryx/datastructure/mypriorityqueue/MyPriorityQueue.java:61-75 | a heap holding exactly the collection's elements, in an array of its length |
| PriorityQueues.PriorityQueue.Size | src/main/java/com/terryx/datastructure/mypriorityqueue/MyPriorityQueue.java:89-91 | the number of elements held |
| PriorityQueues.PriorityQueue.IsEmpty | src/main/java/com/terryx/datastructure/mypriorityqueue/MyPriorityQueue.java:94-96 | true exactly when no element is held |
| PriorityQueues.PriorityQueue.Heapify | src/main/java/com/terryx/datastructure/mypriorityqueue/MyPriorityQueue.java:82-86 | from any occupied prefix, establishes the heap order with the same elements |
| PriorityQueues.PriorityQueue.Grow | src/main/java/com/terryx/datastructure/mypriorityqueue/MyPriorityQueue.java:293-298 | a fresh array of the corrected length that keeps every slot, with empty new slots, the same heap and the same elements |
| PriorityQueues.PriorityQueue.Offer | src/main/java/com/terryx/datastructure/mypriorityqueue/MyPriorityQueue.java:109-121 | returns true, size grows by one, e is added to the elements, and the heap order holds; the array is the old one or a fresh, larger one |
| PriorityQueues.PriorityQueue.SiftUp | src/main/java/com/terryx/datastructure/mypriorityqueue/MyPriorityQueue.java:144-155 | the array ends as SiftUpSeq of its old slots, which SiftUpSeqHeap, SiftUpSeqMoves and SiftUpSeqOffPath describe: only slots on the path from k to the root change |
| PriorityQueues.PriorityQueue.SiftDown | src/main/java/com/terryx/datastructure/mypriorityqueue/MyPriorityQueue.java:250-266 | the array ends as SiftDownSeq of its old slots |
| PriorityQueues.PriorityQueue.Poll | src/main/java/com/terryx/datastructure/mypriorityqueue/MyPriorityQueue.java:179-188 | returns the old slot 0, which precedes every element left; size drops by one, exactly that element is gone, and the heap order holds |
| PriorityQueues.PriorityQueue.RemoveAt | src/main/java/com/terryx/datastructure/mypriorityqueue/MyPriorityQueue.java:217-232 | size drops by one, and the slots and result are RemoveAtSeq of the old slots (whose properties RemoveAtSeqSpec states) |
| PriorityQueues.PriorityQueue.IndexOf | src/main/java/com/terryx/datastructure/mypriorityqueue/MyPriorityQueue.java:416-423 | the first slot holding an element equal to o, or -1 exactly when o is null or not held |
| PriorityQueues.PriorityQueue.Contains | src/main/java/com/terryx/datastructure/mypriorityqueue/MyPriorityQueue.java:191-193 | true exactly when o is held |
| PriorityQueues.PriorityQueue.Remove | src/main/java/com/terryx/datastructure/mypriorityqueue/MyPriorityQueue.java:428-436 | true exactly when o was held; one copy of o is gone and the heap order holds; on false nothing changed |
| HashMaps.MaximumCapacityIsPow2 | src/main/java/com/terryx/datastructure/myhashmap/MyHashMap.java:60 | MAXIMUM_CAPACITY, `1 << 30`, is 2^30 |
| HashMaps.Pow2Grows | src/main/java/com/terryx/datastructure/myhashmap/MyHashMap.java:172 | table lengths grow with the exponent |
| HashMaps.AndLowMask | src/main/java/com/terryx/datastructure/myhashmap/MyHashMap.java:109 | masking with `2^p - 1` keeps the remainder by 2^p |
| HashMaps.ModDoubled | src/main/java/com/terryx/datastructure/myhashmap/MyHashMap.java:155-160 | a remainder by 2n is the remainder by n, or that plus n |
| HashMaps.Spread | src/main/java/com/terryx/datastructure/myhashmap/MyHashMap.java:253 | the spread hash keeps the upper 16 bits of the hash code |
| HashMaps.Hash | src/main/java/com/terryx/datastructure/myhashmap/MyHashMap.java:248-254 | the null key hashes to 0; any other key's hash agrees with its hash code in the upper 16 bits |
| HashMaps.SpreadUndone | src/main/java/com/terryx/datastructure/myhashmap/MyHashMap.java:248-254 | `h ^ (h >>> 16)` keeps the upper half, and applying it twice gives h back, so distinct hash codes give distinct hashes |
| HashMaps.Index | src/main/java/com/terryx/datastructure/myhashmap/MyHashMap.java:108-109 | the bucket index `hash & (n - 1)` of a table of length n (also used by put at line 125) lies below n |
| HashMaps.IndexIsMod | src/main/java/com/terryx/datastructure/myhashmap/MyHashMap.java:109 | `hash & (n - 1)` for n = 2^p is the unsigned hash mod n |
| HashMaps.IndexDoubled | src/main/java/com/terryx/datastructure/myhashmap/MyHashMap.java:155-160 | after doubling, a hash's bucket is its old bucket or the old bucket plus the old length |
| HashMaps.Find | src/main/java/com/terryx/datastructure/myhashmap/MyHashMap.java:110-114 | a node found in a chain is in it and has the hash and key looked for |
| HashMaps.FindNone | src/main/java/com/terryx/datastructure/myhashmap/MyHashMap.java:110-114 | nothing is found exactly when no node of the chain has both the hash and the key |
| HashMaps.Walk | src/main/java/com/terryx/datastructure/myhashmap/MyHashMap.java:129-140 | put's walk stops at the matching node if there is one, and otherwise at the last node |
| HashMaps.PlacedCount | src/main/java/com/terryx/datastructure/myhashmap/MyHashMap.java:126-127 | a laid-out table holds at most as many nodes as buckets |
| HashMaps.LookupFinds | src/main/java/com/terryx/datastructure/myhashmap/MyHashMap.java:106-117 | every node of a laid-out table is found by looking up its own key |
| HashMaps.LookupFound | src/main/java/com/terryx/datastructure/myhashmap/MyHashMap.java:106-117 | a found node is the only node of its bucket |
| HashMaps.CountUpdate | src/main/java/com/terryx/datastructure/myhashmap/MyHashMap.java:150 | replacing one bucket changes the node count by the difference of the bucket lengths |
| HashMaps.RehashStep | src/main/java/com/terryx/datastructure/myhashmap/MyHashMap.java:185-189 | moving bucket j puts its node, if any, into the bucket of its hash in the doubled table, and changes nothing else |
| HashMaps.RehashPlaced | src/main/java/com/terryx/datastructure/myhashmap/MyHashMap.java:183-227 | the doubled table keeps the layout |
| HashMaps.RehashLookup | src/main/java/com/terryx/datastructure/myhashmap/MyHashMap.java:183-227 | every lookup gives the same node in the doubled table |
| HashMaps.RehashPair | src/main/java/com/terryx/datastructure/myhashmap/MyHashMap.java:155-160 | the nodes of bucket i go to buckets i and i + oldCap of the doubled table, the split the comment describes; with one node per bucket this is the move at line 189 |
| HashMaps.RehashCount | src/main/java/com/terryx/datastructure/myhashmap/MyHashMap.java:183-227 | the doubled table holds as many nodes |
| HashMaps.ValuesOfKeys | src/main/java/com/terryx/datastructure/myhashmap/MyHashMap.java:272-286 | a value occurs in some node exactly when some key maps to it |
| HashMaps.Transfer | src/main/java/com/terryx/datastructure/myhashmap/MyHashMap.java:183-227 | the new table ends as the doubled layout of the old one, and the old table is emptied |
| HashMaps.MoveBucket | src/main/java/com/terryx/datastructure/myhashmap/MyHashMap.java:185-189 | one round of the transfer: bucket j is cleared and its node is placed in the new table |
| HashMaps.StorePlaced | src/main/java/com/terryx/datastructure/myhashmap/MyHashMap.java:126-127 | storing a single node in its key's bucket keeps the layout |
| HashMaps.StoreLookups | src/main/java/com/terryx/datastructure/myhashmap/MyHashMap.java:126-127 | after the store, the key maps to the new node and every other key maps as before |
| HashMaps.StoreLookupOther | src/main/java/com/terryx/datastructure/myhashmap/MyHashMap.java:126-127 | storing the node of one key leaves the lookup of each other key unchanged |
| HashMaps.Store | src/main/java/com/terryx/datastructure/myhashmap/MyHashMap.java:126-150 | a store keeps the layout; the count grows by one exactly when the bucket was empty |
| HashMaps.LengthAtMaximum | src/main/java/com/terryx/datastructure/myhashmap/MyHashMap.java:167-172 | a table of 2^p buckets is at MAXIMUM_CAPACITY exactly when p is 30, and doubling a smaller one stays within it |
| HashMaps.Saturated | src/main/java/com/terryx/datastructure/myhashmap/MyHashMap.java:168-171 | at the maximum length, raising the threshold to Integer.MAX_VALUE keeps the layout |
| HashMaps.FirstTable | src/main/java/com/terryx/datastructure/myhashmap/MyHashMap.java:175-180 | the first table has 16 empty buckets, no nodes and threshold 12 |
| HashMaps.Doubled | src/main/java/com/terryx/datastructure/myhashmap/MyHashMap.java:172-173 | doubling length and threshold keeps the layout, the size, and every lookup |
| HashMaps.GetNodeAsWritten | src/main/java/com/terryx/datastructure/myhashmap/MyHashMap.java:106-117 | as written, getNode returns normally whenever a table exists, and a node it returns has the hash and key looked up |
| HashMaps.GetNodeAgrees | src/main/java/com/terryx/datastructure/myhashmap/MyHashMap.java:106-117 | once a table exists, getNode as written returns exactly the node the corrected lookup finds |
| HashMaps.FreshMapLookupThrows | src/main/java/com/terryx/datastructure/myhashmap/MyHashMap.java:106-108 | as written, getNode on a map with no table throws instead of returning null |
| HashMaps.HashMap.constructor | src/main/java/com/terryx/datastructure/myhashmap/MyHashMap.java:89-90 | a map with no table and no keys |
| HashMaps.HashMap.Size | src/main/java/com/terryx/datastructure/myhashmap/MyHashMap.java:257-259 | the number of nodes, at most the table length |
| HashMaps.HashMap.IsEmpty | src/main/java/com/terryx/datastructure/myhashmap/MyHashMap.java:262-264 | true exactly when no key is mapped |
| HashMaps.HashMap.NoKeysWhenEmpty | src/main/java/com/terryx/datastructure/myhashmap/MyHashMap.java:262-264 | size is 0 exactly when no key is mapped |
| HashMaps.HashMap.GetNode | src/main/java/com/terryx/datastructure/myhashmap/MyHashMap.java:106-117 | the node with equal hash and key in bucket `hash & (n - 1)`, or null, including when there is no table |
| HashMaps.HashMap.Get | src/main/java/com/terryx/datastructure/myhashmap/MyHashMap.java:93-97 | the value mapped to key, or null |
| HashMaps.HashMap.ContainsKey | src/main/java/com/terryx/datastructure/myhashmap/MyHashMap.java:267-269 | true exactly when key is mapped |
| HashMaps.HashMap.Resize | src/main/java/com/terryx/datastructure/myhashmap/MyHashMap.java:164-230 | first use gives 16 buckets with threshold 12; at the maximum the table stays and the threshold becomes Integer.MAX_VALUE; otherwise length and threshold double and the old table is emptied; every key maps as before |
| HashMaps.HashMap.Double | src/main/java/com/terryx/datastructure/myhashmap/MyHashMap.java:172-230 | the doubling branch: a fresh table twice as long in the doubled layout, threshold doubled, old table emptied, every key mapped as before |
| HashMaps.HashMap.Put | src/main/java/com/terryx/datastructure/myhashmap/MyHashMap.java:120-153 | an existing key gets the new value, the old value is returned and size stays; a new key in an empty bucket is stored, null is returned and size grows by one; a new key in an occupied bucket changes nothing and the value given is returned; other keys are unaffected. The first put allocates 16 buckets with threshold 12; later, the table and threshold stay unless the new size passes the old threshold, and then the table doubles (or, at the maximum length, the threshold becomes Integer.MAX_VALUE) |
| HashMaps.HashMap.PutInTable | src/main/java/com/terryx/datastructure/myhashmap/MyHashMap.java:125-149 | the same three cases on an allocated table, before any resize |
| HashMaps.HashMap.StoreNode | src/main/java/com/terryx/datastructure/myhashmap/MyHashMap.java:126-127 | the bucket now holds just the node; size grows only if the bucket was empty; other keys are unaffected |
| HashMaps.HashMap.ContainsValue | src/main/java/com/terryx/datastructure/myhashmap/MyHashMap.java:272-286 | true exactly when some key maps to the value, null included |
| BlockingQueues.SlotIsMod | src/main/java/com/terryx/datastructure/myblockingqueue/MyBlockingQueue.java:63-65 | wrapping an index back to 0 at the length gives the remainder by the length |
| BlockingQueues.Next | src/main/java/com/terryx/datastructure/myblockingqueue/MyBlockingQueue.java:78-80 | the index after p is p + 1, wrapped |
| BlockingQueues.WindowEnqueue | src/main/java/com/terryx/datastructure/myblockingqueue/MyBlockingQueue.java:61-68 | writing at the slot past the window appends the element and changes nothing in the window |
| BlockingQueues.WindowDequeue | src/main/java/com/terryx/datastructure/myblockingqueue/MyBlockingQueue.java:75-84 | the head is the element at takeIndex, and advancing takeIndex drops exactly the head |
| BlockingQueues.BlockingQueue.constructor | src/main/java/com/terryx/datastructure/myblockingqueue/MyBlockingQueue.java:86-91 | `items.length == capacity`, both indices and the count are 0, and the queue is empty |
| BlockingQueues.BlockingQueue.Enqueue | src/main/java/com/terryx/datastructure/myblockingqueue/MyBlockingQueue.java:61-68 | x joins the tail; only slot putIndex is written; putIndex advances with wrap; count grows by one |
| BlockingQueues.BlockingQueue.Dequeue | src/main/java/com/terryx/datastructure/myblockingqueue/MyBlockingQueue.java:75-84 | returns the head, the old `items[takeIndex]`; takeIndex advances with wrap; count drops by one; the slot is not cleared |
| BlockingQueues.BlockingQueue.Put | src/main/java/com/terryx/datastructure/myblockingqueue/MyBlockingQueue.java:106-109 | on a queue with room, e joins the tail and `0 <= count <= items.length` holds |
| BlockingQueues.BlockingQueue.Take | src/main/java/com/terryx/datastructure/myblockingqueue/MyBlockingQueue.java:128-131 | on a non-empty queue, returns and removes the head |
| BlockingQueues.BlockingQueue.Offer | src/main/java/com/terryx/datastructure/myblockingqueue/MyBlockingQueue.java:157-172 | true exactly when the queue had room, and then e joins the tail; false when it stays full until the time runs out, and then nothing changes |
| BlockingQueues.BlockingQueue.Poll | src/main/java/com/terryx/datastructure/myblockingqueue/MyBlockingQueue.java:187-201 | the head exactly when the queue held one; null when it stays empty until the time runs out, and then nothing changes |

## Left out

- Locking and signalling in the blocking queue are not modelled: the `ReentrantLock`, the `notEmpty` and `notFull` conditions, `signal`, `await` and `awaitNanos`, `synchronized`, and `InterruptedException` (MyBlockingQueue.java:44-54, 67, 82, 102-201). They exist only for concurrency, and the model is sequential.
- BlockingQueues.BlockingQueue.Put: requires a queue with room, because only another thread could end the wait on a full queue.
- BlockingQueues.BlockingQueue.Take: requires a non-empty queue, for the same reason.
- BlockingQueues.BlockingQueue.Offer: the timeout comes in nanoseconds, so `TimeUnit.toNanos` is not modelled. The clock is the parameter `await`. While Offer waits no other thread runs, so a queue full at the call stays full until the time runs out.
- BlockingQueues.BlockingQueue.Poll: the same holds for an empty queue.
- BlockingQueues.BlockingQueue.constructor: takes a `nat` capacity. A negative capacity, on which the source throws, is not modelled.
- PriorityQueues.PriorityQueue.constructor: takes a `nat` initial capacity. A negative capacity, on which `new Object[initialCapacity]` throws (MyPriorityQueue.java:56), is not modelled.
- Stub methods that return constants are not modelled: MyBlockingQueue.java:208-311, MyHashMap.java:289-317 and MyPriorityQueue.java:439-478.
- The priority queue's iterator `Itr`, `removeEq` and `toString` are not modelled (MyPriorityQueue.java:300-414). They rely on reference identity, an `ArrayDeque` and string formatting.
- The priority queue's `add`, `remove()` and `addAll` are not modelled separately (MyPriorityQueue.java:104-106, 173-175, 196-202). They only call `offer` and `poll`.
- The natural-ordering variants `siftUpComparable` and `siftDownComparable` are covered by the comparator versions, with `compare` standing for `compareTo`. Because the comparator is a total preorder, `c.compareTo(right) > 0` and `compare(right, c) < 0` agree.
- The collection constructor's `toArray` copy and its null-element check are not modelled (MyPriorityQueue.java:63-71). Elements are never null in the model, and `FromCollection` takes the comparator as a parameter.
- PriorityQueues.PriorityQueue.Poll: requires a non-empty queue. On an empty queue the source sets `size` to -1 and then fails reading slot -1, so there is no result to model.
- Integer widths are not modelled, and no overflow arises. The priority queue's `size` and lengths are unbounded (the source itself ignores length overflow in `grow`). The hash map's table length is at most 2^30, so `size` and a doubled threshold (at most 3·2^28, since at 2^30 buckets resize no longer doubles) fit in an `int`.
- Element equality in the priority queue is Dafny value equality on `Option<E>`. This covers `o.equals(queue[i])` in `indexOf` (MyPriorityQueue.java:419) and also removeAt's reference test `queue[i] == moved` (lines 225 and 227). Two distinct but equal objects are therefore not told apart.
- Hash map keys and values are abstracted:
  - `equals` and `==` on keys and values are both Dafny equality, and `null` is `None`.
  - `hashCode` is a function parameter.
  - `Node.next` chains are sequences, and `Node`'s own `equals`, `hashCode`, `getKey`, `getValue` and `setValue` are not modelled.
- The threshold's float computation, `(int)(DEFAULT_LOAD_FACTOR * DEFAULT_INITIAL_CAPACITY)`, is not computed in floating point. It is the constant 12, and only doubles after that.
- Resize's chain-splitting branch is not modelled (MyHashMap.java:190-223). It is unreachable: `put` never links a second node into a bucket, and the model proves every bucket has at most one node (`Placed`). Were it reached, it would also write `newTable[j + newCap]`, which is out of bounds; `j + oldCap` is evidently meant.
- PriorityQueues.PriorityQueue.RemoveAt: its contract ties the result to `RemoveAtSeq`. The heap and contents guarantees are proved in `RemoveAtSeqSpec`, which its caller `Remove` applies.

## Findings

| source | as written | input that shows it | evidently intended | confidence | as-written member | corrected member |
|---|---|---|---|---|---|---|
| src/main/java/com/terryx/datastructure/mypriorityqueue/MyPriorityQueue.java:293-298 | `grow(minCapacity)` sets the new length to `old + (old < 64 ? old : old >> 1)` and ignores `minCapacity` | offer on a queue built with initial capacity 0, or from an empty collection: `grow(1)` keeps length 0, and `queue[0] = e` fails | grow to at least `minCapacity` | not executed | PriorityQueues.GrowLength, PriorityQueues.GrowLengthStuckAtZero | PriorityQueues.NewCapacity |
| src/main/java/com/terryx/datastructure/myhashmap/MyHashMap.java:106-108 | `getNode` reads `table.length` before testing `table != null` | `get(k)` or `containsKey(k)` on a new map, before any put | report the key as absent when there is no table, as the null test on line 108 intends | not executed | HashMaps.GetNodeAsWritten, HashMaps.FreshMapLookupThrows | HashMaps.HashMap.GetNode |
