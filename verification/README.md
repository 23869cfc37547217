# ChainHash and the bag-of-words index, in Dafny

This project models `ChainHash<TK, TV>`, a hash table with separate chaining, and proves properties about the model. It also models the bag-of-words client built on top of it.

The table keeps:
- an array of singly linked chains, one per bucket, with new nodes linked at the head;
- a parallel array of per-bucket counts;
- the number of stored pairs (`nsize`);
- the number of non-empty buckets (`usedBuckets`).

`set` behaves as follows:
- Before inserting, it grows the table when `usedBuckets / capacity` exceeds 0.8.
- It overwrites the value of a key that is already present.
- Otherwise it links a new node at the head of the key's bucket.
- It grows the table again when that bucket now holds more than 3 nodes.

Growing (`rehashing`) sets the capacity to `2 * capacity + 1`. It then relinks every node into bucket `hashcode % capacity`, using the hash code cached in the node.

The client works in two steps:
- It turns each document into tokens: whitespace-separated words, stripped of everything but letters and digits, then lower-cased.
- It maps every token to the increasing list of indices of the documents that contain it.

Modules:

- `Wrappers` (wrappers.dfy): `Option` and `Result`.
- `Counters` (counters.dfy): the total and the number of occupied buckets over the per-bucket counts, and how one update changes them.
- `Chains` (chains.dfy):
  - a chain is a sequence of entries, head first;
  - the head-to-tail scan `Find`;
  - the map a chain denotes (`MapOf`);
  - the concatenation of all chains (`Flatten`).
- `ChainHash` (chainhash.dfy): the table, its invariant `Valid` and every operation of the class. Each operation is specified against `Contents`, the key-to-value map that the chains denote. The key hash (`std::hash` in chainhash.h) is the parameter `hash` of every operation.
- `Text` (text.dfy): `toLowerCase` and `tokenize`. `Tokenize` is a loop proved equal to the reference definition `Tokens`, which is a recursive split into words followed by cleaning.
- `BagOfWords` (bagofwords.dfy): `bagOfWords`, with the loop invariant `Indexed`, which describes the table after a prefix of the documents.

The table invariant `Valid` has three parts:
1. Every counter agrees with the chains: each `bucket_sizes[i]` is the length of chain `i`, `nsize` is their sum, and `usedBuckets` is the number of non-empty chains.
2. Every node caches its key's hash and sits in bucket `hashcode % capacity`.
3. No chain holds a key twice.

## Model

| member | source | states |
|---|---|---|
| ChainHash.Create | chainhash.h:57-63 | The constructor yields a valid table with no pairs, the requested number of buckets (10 when none is given) and size 0 |
| ChainHash.LookupAgrees | chainhash.h:66-73 | Scanning only the key's own bucket finds exactly what the whole table maps the key to, because no other bucket can hold it |
| ChainHash.Get | chainhash.h:65-75 | get succeeds exactly when the key is stored and then returns its value; otherwise it fails with the key-not-found error |
| ChainHash.Contains | chainhash.h:158-168 | contains is true exactly when the key is stored |
| ChainHash.Size | chainhash.h:77 | size equals the number of distinct keys stored |
| ChainHash.SizeIsCardinality | chainhash.h:51 | In a valid table the counter nsize equals the number of keys of the map the chains denote |
| ChainHash.KeysUnique | chainhash.h:93-101 | Across all buckets no key is stored twice, which is the point of set's duplicate check |
| ChainHash.BucketCount | chainhash.h:79 | bucket_count is positive and is the number of buckets |
| ChainHash.BucketSize | chainhash.h:81-84 | bucket_size fails with the index-out-of-range error exactly when the index is negative or at least the capacity; otherwise it returns the length of that chain |
| ChainHash.Bucket | chainhash.h:170-175 | The nodes visited from begin(i) to end(i) number bucket_size(i). Each one is a stored pair whose key hashes to bucket i. Every stored key that hashes to bucket i is among them |
| ChainHash.InsertHeadCorrect | chainhash.h:103-112 | Linking a node for an absent key at the head of its bucket, and updating the three counters, keeps the table valid. It adds exactly that pair and raises the size by one |
| ChainHash.OverwriteCorrect | chainhash.h:94-99 | Overwriting the value in the node found for a present key keeps the table valid and rebinds only that key |
| ChainHash.RelinkAll | chainhash.h:203-230 | Relinking a duplicate-free run of nodes at the heads of their buckets keeps the table valid and the capacity unchanged. It adds exactly those pairs and raises the size by their number |
| ChainHash.Rehash | chainhash.h:188-234 | rehashing sets the capacity to 2c+1, keeps the table valid (counters rebuilt, every node in bucket hashcode % new capacity) and keeps the same pairs and size |
| ChainHash.GrowIfFull | chainhash.h:88 | The check at the top of set rehashes exactly when usedBuckets/capacity exceeds 0.8, and it keeps the pairs and size |
| ChainHash.Set | chainhash.h:87-116 | After set(k, v), lookups see the old map with k bound to v: get returns v and contains is true. Size grows by one exactly for a new key. For an existing key, capacity and all counters are as they were after the opening fill-factor check. The capacity is the one after the opening check, grown once more to 2c+1 exactly when a new key lands in a bucket that already held 3 nodes there; so without the opening check firing, capacity changes exactly in that case |
| ChainHash.UnlinkCorrect | chainhash.h:125-149 | Unlinking the node found for a present key keeps the counters consistent under both branches (head node: chain became empty; later node: count reached 0). It removes exactly that key and lowers the size by one |
| ChainHash.Remove | chainhash.h:118-155 | remove returns true exactly when the key was stored. Afterwards the key is gone and every other pair is unchanged. An absent key leaves the table untouched. Capacity is kept and size drops by one exactly on success |
| Chains.Find | chainhash.h:70-73 | The head-to-tail scan of a chain finds nothing exactly when no node has the key, and otherwise it returns the value of a node with that key |
| Chains.FindIndex | chainhash.h:94-101 | The scan for a key stops at the first node with that key, or reports that no node has it |
| Chains.FindAfterOverwrite | chainhash.h:96-97 | Overwriting the first node's value for a key changes only that key's lookup in the chain |
| Chains.FindAfterUnlink | chainhash.h:136-141 | Unlinking the node for a key from a duplicate-free chain makes that key absent and leaves every other key's lookup unchanged |
| Chains.FindMember | chainhash.h:70-72 | In a duplicate-free chain the scan for a node's key returns that node's value |
| Counters.SumUpdate | chainhash.h:109-110 | Incrementing or decrementing one bucket count changes the total by the same amount, so nsize and bucket_sizes move together |
| Counters.CountUsedUpdate | chainhash.h:110-112 | A bucket count change alters the number of occupied buckets exactly when the bucket passes between empty and non-empty |
| Text.ToLower | p2.cpp:12 | tolower maps an upper-case letter to its lower-case letter and leaves every other character alone; letters and digits remain letters and digits |
| Text.ToLowerCase | p2.cpp:11-14 | toLowerCase keeps the length and applies tolower to every character |
| Text.KeepAlnum | p2.cpp:24-25 | The erase/remove_if idiom never lengthens the word, and a character survives it exactly when it is a letter or digit of the word |
| Text.KeepAlnumCounts | p2.cpp:24-25 | remove_if drops no letter or digit: each one is kept as many times as it occurs in the word, and no other character is kept |
| Text.KeepAlnumAppend | p2.cpp:24-25 | Stripping is stable: stripping a concatenation gives the stripped first part followed by the stripped second part, so kept characters keep their order |
| Text.WordLength | p2.cpp:22 | `stream >> word` reads the longest whitespace-free run at the current position |
| Text.Words | p2.cpp:19-22 | Extraction with `>>` yields only non-empty, whitespace-free words |
| Text.WordsOfJoin | p2.cpp:19-22 | Splitting words joined by blanks gives back exactly those words |
| Text.TokensFollowWords | p2.cpp:22-30 | tokenize yields one token per word that has a letter or digit. The token of each such word comes after those of the earlier words, and it is the word's letters and digits, lower-cased |
| Text.TokensSpellText | p2.cpp:22-30 | The tokens laid end to end are exactly the text's letters and digits, lower-cased, in order, so no letter or digit is lost and nothing is invented |
| Text.ScanWord | p2.cpp:22 | The scan for the end of a word stops at the first whitespace or at the end of the text |
| Text.Tokenize | p2.cpp:17-32 | The tokenize loop computes the tokens of the text, each non-empty and made only of lower-case letters and digits |
| BagOfWords.AddWord | p2.cpp:46-63 | One step of the inner loop appends the document index to the word's list unless it is already there, and starts the list [d] for a new word. No other word's list changes |
| BagOfWords.AddOccurrence | p2.cpp:44-63 | Recording one more token of the current document keeps the index exact for the tokens seen so far |
| BagOfWords.AddDocument | p2.cpp:39-65 | After a document's tokens have all been processed, the index is exact for every document up to and including it |
| BagOfWords.ExtendDocuments | p2.cpp:39 | Finishing document d with all its tokens is the same state as starting document d + 1 |
| BagOfWords.BagOfWords | p2.cpp:35-68 | The resulting table is valid. A token is a key exactly when it occurs in some document. A document index is in a token's list exactly when the token occurs in that document. Every list is non-empty and strictly increasing, hence free of duplicates |

## Left out

- Memory management: node allocation, `delete`, the destructor and the missing copy constructor. The model has immutable values, not pointers.
- The hash function: `std::hash` is unknown code, so it is a parameter `hash: K -> nat`. The cached hash code is the hash of the key, and `size_t` arithmetic is over unbounded naturals.
- ChainHash.NeedsGrowth: the `double` division compared with the `float` constant 0.8f is modelled as the exact test `5 * usedBuckets > 4 * capacity`. The two agree unless the capacity is above about 16 million. Beyond that size, ratios within about 1.2e-8 above 0.8 count as full in the model but not in the code.
- Integer width: `capacity * 2 + 1` and the `int` counters are unbounded integers. Overflow after repeated growth is not modelled.
- ChainHash.Create: requires a positive initial capacity. With 0 or a negative capacity the code divides by zero or fails to allocate.
- ChainHash.Bucket: requires an index in range. `begin(index)` does not check its index, and out of range it reads outside the array.
- Iterators: `begin(i)`/`end(i)` and `++`, `!=`, `*`, `->` are modelled as the sequence of entries of chain `i`.
- ChainHash.Rehash: the contract does not state the order of nodes within a chain after growth. The body does relink nodes in the code's order: bucket 0 first, each chain head to tail, each node pushed to the head of its new chain.
- ChainHash.Set: the contract does not bound the fill factor after the call. The check runs only before inserting, so a table at capacity 10 with 8 occupied buckets can reach 9 occupied buckets (0.9) once a new key lands in an empty bucket. The model follows the code here, not the stated intent that the fill factor never stays above 0.8 after set.
- Text: character classes are those of the C locale restricted to ASCII (`isspace`, `isalnum`, `tolower`). Locale-dependent behaviour, and negative `char` values passed to these functions (undefined behaviour), are not modelled.
- `stringstream` is modelled only by its word extraction, as maximal runs of non-whitespace characters.
- The two loops of `bagOfWords` are split into the methods `AddDocument` (one document) and `AddWord` (one token). The calls into the table are the same and come in the same order.
- `printBagOfWords` and `main`: console output and a fixed demonstration input.
