# Path encryption, access grants and their supporting algorithms

This project models the algorithmic cores of the Storj common library and proves what they are relied
on for. `dafny verify dfyconfig.toml` checks all of it.

The centre is the key store of encrypted paths. A store is a mutable trie per bucket in which every node
has a plain and an encrypted name. `KeyStore` has the heap objects, `KeyTrie` and `StoreModel` the values
they stand for; a flat map from bucket and plain path to entry is the simplest form, and both refinements
are proved. On top of it, `PathEncryption` shows that in a store whose keys come from one key tree the
choice of a base never shows; `Grant` shows that restricting an access keeps this, so it holds along
every chain of restrictions; `Access` treats limiting to an API key, collapsing of caveats, export and
import; `AccessGrants` puts the stages together: the text of an access grant opens as an equivalent one.

| module | file | about |
|---|---|---|
| Prelude | Prelude.dfy | bytes, options, results, lexicographic order |
| Paths | Paths.dfy | component iterator and path builder |
| Segment | Segment.dfy | escaping of path components |
| Crypto, PathCipher | Crypto.dfy, PathCipher.dfy | primitives as unknown functions; encryption along a path |
| KeyTrie, StoreModel, KeyStore | KeyTrie.dfy, StoreModel.dfy, KeyStore.dfy | the key store as value, as flat map and on the heap |
| PathEncryption, PrefixInfo | PathEncryption.dfy, PrefixInfo.dfy | paths in a store, and the fused form for listings |
| Grant, Access, AccessGrants | Grant.dfy, Access.dfy, AccessGrant.dfy | restricting, limiting, collapsing, exporting, the textual form |
| Caveats, Macaroons, MacaroonFormat | Macaroon.dfy, MacaroonFormat.dfy | attenuation and the binary format |
| Numerals, Base58 | Base58.dfy | radix conversion in chunks, Base58Check |
| Bits | Bits.dfy | little-endian increments and nonces |
| Transforms, Padding, Pipeline | Transform.dfy, Pipeline.dfy | block transforms, ranges, padding, encrypters |
| LruSections, LruCache, LruProtocol | LruCache.dfy, LruProtocol.dfy | the expiring LRU and its interleavings |
| EventCounter | Counter.dfy | the swapping event counter |
| BloomFilter | BloomFilter.dfy | the piece filter |

Where the code works in place (trie nodes, buffers, slices, maps under a mutex), the model is a class or
an array method whose contract equates its effect with a function; the properties are lemmas about that
function. Concurrent objects are state machines whose steps are the code's critical sections.

Some facts turned out not to hold of the code as it is, and are stated with their exact condition: a
range with a negative offset is refused only when its window has blocks that are not in the data, and
otherwise ends cleanly with the first blocks of the whole, or with nothing (`Transforms.NegativeOffset`,
with witnesses in `Transforms.NegativeOffsetIsNotAlwaysRefused`); `Add`
of the LRU loses the agreement of map and list and can exceed the capacity
(`LruSections.AddKeepsContainment`, `LruSections.AddKeepsCapacity`, `LruSections.AddOutgrowsCapacity`);
`UnpadSlow` needs a padding below 2^32 and accepts inputs it cannot read (`Padding.UnpadUndoesPad`,
`Padding.UnpadSlowOfAnything`); the parent of a path like `/x` has no raw form
(`PrefixInfo.EmptyComponentParent`, `PrefixInfo.EmptyComponentParentKey`).

## Model

| member | source | states |
|---|---|---|
| Paths.Iterator.Next | paths/path.go:137-153 | each call takes the next component off what is left; a finished iterator yields empty components and stays finished |
| Paths.RemainingIsJoin | paths/path.go:117-135 | the unconsumed text of an iterator is always the join of the components still to come, through all calls of Next |
| Paths.JoinSplit | paths/path.go:117-153 | joining the components of any raw path gives the path back; a raw path is never the single empty component |
| Paths.SplitJoin | paths/path.go:117-153 | splitting a join gives the components back for every list without slashes other than the single empty component |
| Paths.SplitAtSlash | paths/path.go:137-153 | byte 47 and nothing else separates components: the text before the first slash, and the components of the rest |
| Paths.PathBuilder.Append | encryption/path.go:36-51 | the builder always holds the join of everything appended, empty first components included |
| Segment.DecodedEncoded | encryption/path.go:397-422 | every byte string is encoded into a segment the validator accepts, and decoding gives it back |
| Segment.EncodedDecoded | encryption/path.go:425-498 | every accepted segment is the encoding of what it decodes to, so the code is onto the accepted segments |
| Segment.EncodingPreservesOrder | encryption/path.go:386-422 | lexicographic order of segments and of their encodings agree in both directions |
| Segment.EncodedBytes | encryption/path.go:386-422 | no 0x2f, 0x00 or 0xff in an encoding; never empty; at most 2n+1 bytes |
| Segment.EncodingTable | encryption/path.go:386-422 | the encoding of the empty segment and of each single byte, literally: a mark, and six escaped bytes |
| Segment.EncodingJoins | encryption/path.go:397-422 | the encoding of a joined segment is that of its parts behind one mark, so the table determines it |
| Segment.PlainEncoding | encryption/path.go:397-422 | without special bytes, only the mark 0x02 is added |
| Segment.EncodeSegment | encryption/path.go:397-422 | the loop computes the encoding |
| Segment.ValidateEncodedSegment | encryption/path.go:459-498 | no error exactly for the segments in the image of the encoding |
| Segment.DecodeSegment | encryption/path.go:425-456 | succeeds exactly on valid segments; decodes although it overwrites its own input, and leaves the buffer alone when it fails |
| Crypto.DecryptEncrypt | encryption/encryption.go:36-75 | Decrypt undoes Encrypt under EncNull, AES-GCM and SecretBox, empty data included, with any two nonces that agree where the cipher reads them |
| Crypto.CipherSwitch | encryption/encryption.go:36-75 | which primitive each cipher suite calls, with which part of the nonce; empty data is never encrypted |
| PathCipher.ComponentRoundTrip | encryption/path.go:302-384 | a component without slashes encrypts to one without slashes, which is empty only for the empty component under EncNull, and decrypts back |
| PathCipher.DeriveAppend | encryption/path.go:255-299 | deriving along a joined path is deriving along its parts one after the other |
| PathCipher.DeriveIsMac | encryption/path.go:297-299 | the key of a component is the first 32 bytes of the HMAC-SHA512 of "path:" and the component under the key of its parent |
| PathCipher.KeysSeparate | encryption/path.go:297-299 | when two different paths of one length lead to one key, the depth at which two different MAC inputs have the same truncated MAC |
| PathCipher.EncryptedComponent | encryption/path.go:302-345 | every encrypted component, literally: the nonce from the key of the component, in front of the component sealed under the key of its parent |
| PathCipher.ReversibleCiphers | encryption/encryption.go:36-54 | the results on encrypted paths are for EncNull, AES-GCM and SecretBox |
| PathCipher.EAppend | encryption/path.go:135-151 | encrypting a path is encrypting a prefix, then the rest under the key derived along the prefix |
| PathCipher.EInjective | encryption/path.go:302-345 | different paths encrypt differently under one key |
| PathCipher.EReflectsPrefix | encryption/path.go:135-151 | the encryption of one path is a component prefix of that of another exactly when the paths are in that relation |
| PathCipher.EncryptIterator | encryption/path.go:135-151 | the loop joins the encrypted components, or reports the first component error |
| PathCipher.DecryptIterator | encryption/path.go:219-235 | the loop joins the decrypted components, or reports the first component error |
| PathCipher.RawPathRoundTrip | encryption/path.go:135-157 | for every raw path, decrypting the re-split encryption gives the raw path back (with encryption/path.go:219-241) |
| KeyTrie.AddCoherent | encryption/store.go:140-179 | an accepted Add keeps the name maps of every node mutual inverses that name exactly its children |
| KeyTrie.AddBase | encryption/store.go:140-179 | an accepted Add changes the base at its own path and at no other |
| KeyTrie.AddName | encryption/store.go:140-179 | an accepted Add names the nodes on its own path and leaves all other names alone |
| KeyTrie.AddAgrees | encryption/store.go:140-179 | an accepted Add parts company with every named path at the same depth on both sides |
| KeyTrie.AddConflict | encryption/store.go:140-179 | an Add of equal lengths that is refused names a path it disagrees with, so no Add is refused without a reason |
| KeyTrie.FindBest | encryption/store.go:236-264 | the recursive walk with its running best answers with the deepest base on the path, the rest below it, and the names of the node at the full path |
| KeyTrie.NodeByEncName | encryption/store.go:50-57 | walking by encrypted names reaches the same node as walking by the plain names |
| KeyTrie.ChildName | encryption/store.go:50-57 | the names a node gives a child continue its own names on both sides |
| KeyTrie.SameObservations | encryption/store.go:50-57 | two tries with the same bases and the same names are the same trie |
| StoreModel.AddRefines | encryption/store.go:118-179 | an Add is accepted exactly when the flat map of all entries accepts it, and then the store represents the updated flat map |
| StoreModel.RunRefines | encryption/store.go:118-179 | after any sequence of Adds, refused ones included, the store represents the flat map after the same sequence |
| StoreModel.LookupIsLongestPrefix | encryption/store.go:184-264 | either lookup answers with the base of the longest component prefix ever added and exactly the unmatched suffix, or with the default base |
| StoreModel.LookupReveals | encryption/store.go:184-264 | a plain lookup reveals the plain names by the encrypted ones and an encrypted lookup the reverse: exactly the names right below the path of the entries below it; anything at all exactly when an entry is at or below it, and nothing when the default key answers |
| StoreModel.DefaultAnswer | encryption/store.go:198-234 | without an entry above the path: the default base, field by field, with all of the path remaining, or none |
| StoreModel.BypassChangesCipher | encryption/store.go:187-192 | bypassing the encryption changes the cipher of the base found and nothing else |
| StoreModel.EntriesAgree | encryption/store.go:118-179 | any two entries of one bucket share equally many leading components on the plain and the encrypted side |
| StoreModel.RepresentationUnique | encryption/store.go:118-179 | the flat map determines the whole trie, so also every later lookup and revealed name |
| StoreModel.ReaddingRebuilds | encryption/store.go:298-325 | re-adding the listed entries to an empty store in whatever order never errors and gives the same store |
| KeyStore.Node.Attach | encryption/store.go:173-178 | entering a child under a plain and an encrypted name keeps the four maps of the node consistent and changes one child of its value |
| KeyStore.Node.Add | encryption/store.go:140-179 | the mutating recursion computes the value-level Add; when it fails, at any depth, every existing node is as before |
| KeyStore.Node.Lookup | encryption/store.go:236-264 | the recursion over the graph computes the value-level walk, and changes nothing but its own iterator |
| KeyStore.Node.IterateWithCipher | encryption/store.go:308-325 | reports every base of the subtree once, each at its own path |
| KeyStore.Store.AddWithCipher | encryption/store.go:118-137 | keeps the graph well formed; the store afterwards is the value-level result, or exactly the old one on failure |
| KeyStore.Store.Add | encryption/store.go:113-115 | AddWithCipher under the default path cipher of the moment |
| KeyStore.Store.Lookup | encryption/store.go:184-234 | both lookups, with the default base, on the graph |
| KeyStore.Store.IterateWithCipher | encryption/store.go:298-305 | lists every entry ever added exactly once, with its latest base |
| PathEncryption.LookupFindsTreeKey | encryption/store.go:184-264 | when all bases come from one key tree, whichever base a lookup picks carries the key of the tree at its path |
| PathEncryption.BelowAnyBase | encryption/path.go:90-131 | starting below any base of the tree gives the same encryption, decryption and key as starting at its root |
| PathEncryption.TreeDecides | encryption/path.go:90-131 | in a key-tree store encryption and key depend on the tree alone; the error is a missing base, exactly for the paths nothing covers |
| PathEncryption.DefaultStoreDerives | encryption/path.go:255-299 | under a default key, every path key is the chain of MACs over the bucket and the components |
| PathEncryption.OverrideDecides | encryption/path.go:90-131 | a given cipher is used for the components below the base, and only for them |
| PathEncryption.SameBase | encryption/store.go:184-223 | the encrypted lookup of an encrypted path selects the base of the plain lookup, with equally much remaining |
| PathEncryption.DecryptUndoesEncrypt | encryption/path.go:174-216 | decryptPath undoes encryptPath on every path the store can encrypt |
| PathEncryption.DecryptUndoesOverride | encryption/path.go:174-216 | with a given cipher, decryption gives the path back exactly when no entry deeper than the base has a prefix of the result as its encrypted path |
| PathEncryption.EncryptPathIn | encryption/path.go:90-131 | encryptPath over the graph store, with or without an overriding cipher |
| PathEncryption.DecryptPathIn | encryption/path.go:174-216 | decryptPath over the graph store, with or without an overriding cipher |
| PathEncryption.DerivePathKeyIn | encryption/path.go:255-292 | DerivePathKey over the graph store, the empty path included |
| PrefixInfo.PathAgrees | encryption/prefix.go:30-104 | succeeds exactly when the path has an encryption and a key and is not itself a base; bucket, cipher, path, encryption and key are those of the separate functions |
| PrefixInfo.ParentHasSameBase | encryption/prefix.go:30-104 | the lookup of the parent picks the base of the path, with one component less remaining |
| PrefixInfo.ParentAgrees | encryption/prefix.go:30-104 | parent encryption and key are those of the separate functions for every parent other than the single empty component |
| PrefixInfo.EmptyComponentParent | encryption/prefix.go:30-104 | for paths like /x the parent encryption agrees with the one of the empty path exactly under EncNull (the parent key is the next row) |
| PrefixInfo.EmptyComponentParentKey | encryption/prefix.go:30-104 | for such paths the parent key is one derivation below the key of the empty path, so it agrees exactly when that derivation is a fixed point |
| PrefixInfo.WalkDown | encryption/prefix.go:42-104 | the loop with four builders and two keys computes path and parent from the same pass |
| PrefixInfo.GetPrefixInfoIn | encryption/prefix.go:30-104 | the whole function over the graph store, with both error cases |
| Grant.RestrictIsCoherent | grant/restrict.go:90-119 | with prefixes, succeeds exactly when the store covers each trimmed prefix; every path at or below one encrypts and derives as before, every other path has no base, and the hypothesis holds again |
| Grant.TreeAdditionAccepted | grant/restrict.go:112-114 | entries taken from one key tree never conflict |
| Grant.TreeNamesAgree | encryption/path.go:302-345 | in a key tree, the encryptions of two paths share exactly as many components as the paths |
| Grant.RestrictWithoutPrefixes | grant/restrict.go:90-94 | without prefixes the default key is kept and all entries are dropped: nothing changes for stores with a default key, and nothing is covered for the others |
| Grant.DefaultKeyTree | encryption/store.go:227-234 | a store with only a default key satisfies the hypothesis of the restriction theorem |
| Grant.SharedPathsAreAllowed | grant/restrict.go:115-118 | the caveat of the restricted key allows the encryption of every path at or below a shared prefix |
| Grant.Restrict | grant/restrict.go:64-132 | the method over the graph store: its four errors in order, the first two by the fields of the permission, the restricted key and the narrowed store |
| Grant.CaveatOfPermission | grant/restrict.go:81-88 | the caveat of a permission allows an action exactly when the field for its operation, the two times and the paths do |
| Grant.RestrictedKeyAuthorizes | grant/restrict.go:121-124 | a restricted key authorizes exactly what the key before it authorizes and the permission lets through, unless its own tail is revoked |
| Grant.TrimmedPrefix | grant/restrict.go:97-101 | exactly one trailing slash of a prefix is dropped |
| Grant.ShareAll | grant/restrict.go:96-119 | the loop fills the new store and the allowed paths prefix by prefix, and stops at the first error |
| Access.CollapseIsIntersection | grant/access.go:141-192 | a bucket and path are covered by a collapsed prefix exactly when every restricting caveat has a path that covers them |
| Access.CollapseAgreesWithAllows | macaroon/apikey.go:250-319 | the collapsed prefixes give the answer of Allows for every object action in the time window |
| Access.CollapsePrefixes | grant/access.go:141-192 | the loops collect the groups and filter; an unreadable caveat is an error |
| Access.FilterInPlace | grant/access.go:178-188 | the in-place filter keeps exactly the allowed prefixes, in order, although it overwrites the slice it reads |
| Access.LimitInTree | grant/access.go:225-246 | limiting a key-tree store to issued prefixes stays in the tree, and has an entry for each covered prefix and for nothing else |
| Access.LimitToKeepsTheAllowed | grant/access.go:128-248 | for every key-tree store, also with a default key, and issued path restrictions: a path has a base afterwards exactly when the store covers a collapsed prefix at or above it; then it encrypts and derives as before and every restricting caveat allows it |
| Access.LimitToIsNeutral | grant/access.go:128-248 | limiting the store of an issued access to its own key changes no encryption, no key and no missing base; a key that cannot be read back empties it |
| Access.RestrictKeepsIssuing | grant/restrict.go:64-132 | a restricted access is issued again, so the neutrality of LimitTo holds along every chain of restrictions |
| Access.DefaultAccessIssues | grant/access.go:111-116 | a fresh access with a default key is issued |
| Access.LimitStoreTo | grant/access.go:131-248 | over the graph store, with the key read back from its serialization: the identical store exactly when the key is readable and no caveat restricts paths, an empty one when key or caveats are unreadable |
| Access.ImportUndoesExport | grant/access.go:251-316 | importing an export, entries in any order, rebuilds the store; an unspecified default cipher becomes AES-GCM |
| Access.ToProto | grant/access.go:251-277 | exports the settings and every entry exactly once |
| Access.ExportedEntry | grant/access.go:254-263 | field by field, an exported entry is an entry of the store |
| Access.ParseProto | grant/access.go:279-317 | the two length errors, the first refused entry, or the store of all entries |
| AccessGrants.ParsedAccessIsEquivalent | grant/access.go:30-96 | parsing the text of an issued access succeeds exactly when its API key can be read back; satellite and key are the same, every path encrypts and derives as in the original, and the access is issued again |
| AccessGrants.AcceptedText | grant/access.go:33-66 | exactly the version 0 encodings of a scope with a satellite, a readable key and an importable store are accepted, and the store is limited to the key |
| AccessGrants.BytesOfText | grant/access.go:83-95 | the bytes under the text: version 0, the marshalled scope, the checksum of both |
| AccessGrants.RestrictKeepsReadable | macaroon/apikey.go:217-227 | restricting keeps a key readable exactly when the marshalled caveat is within the length limit |
| AccessGrants.SerializeAccess | grant/access.go:68-96 | the three missing parts in order, or the text with every entry exactly once |
| AccessGrants.ParseAccess | grant/access.go:33-66 | the errors of each stage in order, or satellite, key and the limited store |
| Numerals.ConvertRoundTrip | base58/base58.go:30-138 | conversion between bases that keeps leading zeros one for one is undone by the conversion back |
| Numerals.LowFirstSplit | base58/base58.go:96-121 | the digits of q times b^k plus m are the k low digits of m followed by the digits of q |
| Numerals.ReverseLowFirst | base58/base58.go:96-135 | digits produced from the low end and reversed are the numeral |
| Base58.AlphabetInverse | base58/alphabet.go:9-49 | the two tables are inverse to each other on all digits and all bytes |
| Base58.AlphabetInOrder | base58/alphabet.go:9-49 | digits and letters without 0, I, O and l, in the order of their bytes |
| Base58.DecodeUndoesEncode | base58/base58.go:30-138 | Decode(Encode(b)) = b for every byte string, leading zeros included |
| Base58.EncodeUndoesDecode | base58/base58.go:30-138 | Encode(Decode(s)) = s exactly for the strings over the alphabet |
| Base58.ChunkFits | base58/base58.go:38-63 | the value of a chunk stays below 58^10, which fits in 63 bits |
| Base58.ChunkValue | base58/base58.go:56-63 | the 64-bit accumulation of a chunk is its value, without wrapping, and fails exactly on foreign characters |
| Base58.DecodeValue | base58/base58.go:50-70 | ten-digit chunks with a short last one compute the one-digit-at-a-time value |
| Base58.DecodeLoop | base58/base58.go:30-85 | the whole decoder |
| Base58.ChunkDigits | base58/base58.go:106-120 | ten digits when more are to come, and no leading zeros in the last chunk |
| Base58.ReverseInPlace | base58/base58.go:131-135 | the in-place swap loop reverses |
| Base58.EncodeLoop | base58/base58.go:88-138 | the whole encoder: chunks, ones for leading zeros, reversal |
| Base58.CheckDecodeIsInverse | base58/base58check.go:28-52 | CheckDecode accepts exactly the CheckEncode of its result, for every four-byte checksum |
| Base58.CheckEncodedBytes | base58/base58check.go:28-35 | the bytes under a checked text: version, input, checksum of both |
| Base58.CheckEncodeIn | base58/base58check.go:28-35 | version, input and checksum of both, encoded |
| Base58.CheckDecodeIn | base58/base58check.go:38-52 | the two errors and the payload |
| Caveats.CheckAllows | macaroon/apikey.go:250-319 | the loops and early returns decide the caveat: time window, bucket metadata reads, operation, then paths |
| Caveats.AllowsByField | macaroon/apikey.go:250-319 | the caveat field by field: window, operation and paths, and the rule for bucket metadata |
| Macaroons.ValidateAndTails | macaroon/macaroon.go:95-104 | the loop returns the whole MAC chain and whether it ends in the tail |
| Macaroons.TailsOfRestricted | macaroon/macaroon.go:62-92 | a restricted macaroon has the tails of its parent and one more, the MAC of the caveat under the last |
| Macaroons.TailsAreMacs | macaroon/macaroon.go:38-47 | the first tail is the HMAC-SHA256 of the head under the secret, and every other one that of a caveat under the tail before it; valid means ending in the own tail |
| Macaroons.TailBinds | macaroon/macaroon.go:73-104 | when one tail is valid for two different secrets, heads or caveat lists of one length, the position where two different MAC inputs have the same MAC |
| Macaroons.FromPartsValid | macaroon/apikey.go:106-117 | a key built from the secret through any restrictions validates |
| Macaroons.Check | macaroon/apikey.go:122-158 | no error exactly for authorized actions, and for each error exactly when it is returned: signature, timestamp, the first caveat that is malformed or refuses, revocation, in this order |
| Macaroons.RestrictIsExact | macaroon/apikey.go:217-227 | a restricted key authorizes an action exactly when its parent does, the new caveat allows it and the new tail is not revoked; a forged parent passes only through a MAC collision |
| Macaroons.AncestorRevocation | macaroon/apikey.go:147-155 | revoking the tail of any ancestor rejects all descendants |
| Macaroons.AttenuationIsIntersection | macaroon/apikey.go:106-158 | over any chain of restrictions a key authorizes exactly what every caveat allows, unless an ancestor is revoked |
| Macaroons.GetAllowedBuckets | macaroon/apikey.go:169-214 | fails exactly when some caveat forbids the action; otherwise the answer is the buckets that every restricting caveat names |
| Macaroons.AllowedBucketsAreReadable | macaroon/apikey.go:169-214 | for a bucket-less metadata read these are exactly the non-empty buckets whose metadata read every caveat allows |
| MacaroonFormat.ParseVarintUndoesPut | macaroon/serialize.go:71-77 | varints up to 0x7fffffff survive, whatever follows them |
| MacaroonFormat.ParseCaveatsUndoes | macaroon/serialize.go:102-135 | caveats, empty ones included, are never confused with the terminating empty section |
| MacaroonFormat.ParseUndoesSerialize | macaroon/serialize.go:31-153 | ParseMacaroon(Serialize(m)) = m exactly for the tails of MAC length, for every head and caveat list within the length limit |
| MacaroonFormat.ReadsBackExactly | macaroon/serialize.go:31-215 | for every macaroon whatever: it can be read back exactly when all lengths are at most 0x7fffffff and the tail has 32 bytes, and then it is the same |
| MacaroonFormat.SerializeMacaroon | macaroon/serialize.go:31-61 | the appending printer |
| MacaroonFormat.SerializedBytes | macaroon/serialize.go:13-61 | the bytes of a macaroon with short fields, literally |
| MacaroonFormat.ShortVarints | macaroon/serialize.go:71-77 | varints of one and of two bytes, literally |
| MacaroonFormat.SectionAccepted | macaroon/serialize.go:156-206 | a section is accepted exactly when it reads as packets whose types rise strictly |
| MacaroonFormat.CaveatAccepted | macaroon/serialize.go:108-134 | which sections are caveats, literally |
| MacaroonFormat.CaveatsAccepted | macaroon/serialize.go:102-135 | the caveats are accepted exactly when the bytes read as a section for each of them and an empty one |
| MacaroonFormat.MacaroonAccepted | macaroon/serialize.go:79-153 | the grammar: exactly the bytes that read as version, header section, caveats and a tail of 32 bytes are accepted, as that macaroon |
| MacaroonFormat.ParseSectionLoop | macaroon/serialize.go:156-177 | the section loop: field order, end mark and errors; it ends on every input |
| MacaroonFormat.ParseCaveatsLoop | macaroon/serialize.go:102-135 | the caveat loop with its three errors; it ends on every input |
| MacaroonFormat.ParseMacaroonLoop | macaroon/serialize.go:79-153 | the whole parser on arbitrary bytes |
| Bits.AddToIsAddition | encryption/bits.go:10-30 | old value plus amount is the new value plus 256^n times the carry |
| Bits.IncrementIsModular | encryption/bits.go:10-30 | little-endian addition modulo 256^n; something is truncated exactly when the sum reaches 256^n |
| Bits.IncrementsCompose | encryption/bits.go:10-30 | two increments are one by the sum, carries included |
| Bits.IncrementsDistinct | encryption/bits.go:10-30 | different amounts below 256^n give different bytes |
| Bits.IncrementBytes | encryption/bits.go:10-30 | the in-place loop with its eight-bit carry test computes that sum; negative amounts are refused and change nothing |
| Bits.CalcGCMNonce | encryption/aesgcm.go:63-69 | the nonce of a block, computed on a copy |
| Bits.NoncesAreUnique | encryption/secretbox.go:50-57 | no two block numbers of one stream share a nonce (section 8 of NIST SP 800-38D) |
| Transforms.TransformedReader.Fill | encryption/transform.go:87-104 | the next block, or the error: a partial block and a short source are unexpected ends |
| Transforms.TransformedReader.Read | encryption/transform.go:86-114 | each call delivers the next part of the stream into the buffer, some of it when there is room, and an error only after everything before it |
| Transforms.LimitedReader.ReadAll | encryption/transform.go:155-189 | whatever buffer sizes are chosen, the pieces add up to the stream and the last error is its ending |
| Transforms.TransformedReader.Discard | encryption/transform.go:176-186 | skipping takes exactly k bytes, or fails with the ending when there are fewer |
| Transforms.WindowIsMinimal | encryption/transform.go:142-153 | the block window covers the range and is contained in every window that does |
| Transforms.WholeJoin | encryption/transform.go:86-114 | transforming joined whole blocks is joining their transforms under continued block numbers |
| Transforms.TransformedIsWhole | encryption/transform.go:86-114 | the reader over a complete source delivers the simple whole-file transform |
| Transforms.CleanEndIsComplete | encryption/transform.go:74-114 | a clean end implies whole blocks, the expected size and nothing lost: a truncated source never ends cleanly |
| Transforms.Range | encryption/transform.go:155-189 | window, transformed reader, skipping and limiting on the heap deliver the stream that the value-level composition predicts |
| Transforms.RangeOfWindow | encryption/transform.go:155-189 | only the blocks of the window matter; ranges beyond the size are refused |
| Transforms.RangeIsSlice | encryption/transform.go:134-189 | for every offset and length: from offsets that are not negative, the slice of the whole transform for exactly the ranges within Size; from negative ones, what NegativeOffset says; nothing for lengths that are not positive |
| Transforms.NeverShortAndClean | encryption/transform.go:155-189 | whatever the underlying ranger delivers: when the window reaches the length, as it always does from offsets that are not negative, a ranged reader ends cleanly exactly when it delivered the full length; otherwise a clean end means the bytes of the window were there |
| Transforms.NegativeOffset | encryption/transform.go:142-189 | for every negative offset: refused exactly when the window has blocks and one of them is not in the data; otherwise nothing for an empty window and else the first blocks of the whole up to the length, both with a clean end |
| Transforms.NegativeOffsetIsNotAlwaysRefused | encryption/transform.go:142-189 | witnesses: with blocks of four bytes, -3 for 5 reads from the beginning, -5 for 1 is empty and clean, -5 for 3 is refused |
| Padding.MakePadding | encryption/pad.go:20-30 | zeros and the big-endian amount, written into the buffer |
| Padding.BigEndianBytes | encryption/pad.go:28 | most significant byte first, modulo 2^32 |
| Padding.PaddingFills | encryption/pad.go:20-30 | the padded length is a multiple of the block size; 4 <= padding < bs + 4, and no smaller amount from 4 on would do |
| Padding.UnpadUndoesPad | encryption/pad.go:35-61 | Unpad always undoes Pad; UnpadSlow does exactly when the amount fits in 32 bits |
| Padding.UnpadSlowOfAnything | encryption/pad.go:50-61 | accepts exactly inputs of four bytes or more; readable exactly when the claimed padding is not longer than the input |
| Pipeline.DecrypterUndoesEncrypter | encryption/encryption.go:78-107 | the constructors agree on errors, and block by block the decrypter undoes the encrypter |
| Pipeline.EncrypterSeals | encryption/encryption.go:78-91 | what each encrypter seals a block with: the starting nonce plus the number of the block; block sizes and refusals |
| Pipeline.NoncesOfBlocks | encryption/aesgcm.go:63-79 | as a number the nonce is the start plus the block number, and two blocks never share one |
| Pipeline.WholeUndone | encryption/transform.go:120-137 | decrypting the whole encryption gives the data back |
| Pipeline.DecryptedRange | encryption/transform.go:155-189 | any range of the decrypted, encrypted, padded data is that range of the padded data |
| Pipeline.CalcEncryptedSizeIsExact | encryption/encryption.go:144-156 | the calculated size is the size of the transformed padded data for every data, key and nonce |
| LruSections.ListCoversMap | lrucache/cache.go:66-70 | the list is never shorter than the map, and equally long in agreement |
| LruSections.EvictionMakesRoom | lrucache/cache.go:66-70 | the eviction loop always finds a last element, ends and makes room |
| LruSections.MissEvictsLeastRecent | lrucache/cache.go:64-75 | a miss drops exactly the least recently used entry of a full cache and puts the new one in front |
| LruSections.SectionsKeepAgreement | lrucache/cache.go:57-100 | every lock section of Get, Delete and GetCached keeps map and list one to one within the capacity, and keeps the weaker containment in any case |
| LruSections.ServedWhileFresh | lrucache/cache.go:76-83 | Get and GetCached serve a mapped state exactly while it is not older than the expiration, and move it to the front; an older one is removed and nothing else |
| LruSections.RemovedAndAdded | lrucache/cache.go:95-160 | Delete and a failed function remove just their own entry; what Add adds is mapped and in front |
| LruSections.AddKeepsContainment | lrucache/cache.go:132-160 | Add keeps every mapped element in the list, and the one-to-one agreement exactly when it evicts nothing |
| LruSections.AddKeepsCapacity | lrucache/cache.go:132-160 | Add exceeds the capacity exactly when the map is full, the key new and the last element a leftover of an earlier Add |
| LruSections.AddOutgrowsCapacity | lrucache/cache.go:136-148 | counterexample: three Adds leave two entries in a cache for one |
| LruCache.ExpiringLRU.MakeRoom | lrucache/cache.go:66-70 | the eviction loop in place; the last element is never missing |
| LruCache.ExpiringLRU.GetSection | lrucache/cache.go:58-85 | the section at the top of Get: insert, expire and retry, or move to the front |
| LruCache.ExpiringLRU.ForgetSection | lrucache/cache.go:95-105 | after a failed function the entry goes only if it is still this state |
| LruCache.ExpiringLRU.Delete | lrucache/cache.go:116-126 | removes the entry and its element |
| LruCache.ExpiringLRU.GetCachedSection | lrucache/cache.go:164-199 | an expired entry is removed, a valid one moves to the front |
| LruCache.ExpiringLRU.AddSection | lrucache/cache.go:132-160 | as the code does it: the evicted mapping goes, its list element stays |
| LruProtocol.RunKeepsProtocol | lrucache/cache.go:53-199 | the invariant of states, threads and map holds after every interleaving, Add included |
| LruProtocol.GetReturnsWhatWasProduced | lrucache/cache.go:87-112 | each state starts its function at most once; a Get that started none returns a non-nil value produced for that key on that state, or given to it by Add |
| LruProtocol.CallerReturnsItsResult | lrucache/cache.go:87-112 | a Get that started the function returns its value or its error |
| LruProtocol.FailuresAreNotCached | lrucache/cache.go:95-105 | a mapped state belongs to its key, and once finished it has succeeded |
| LruProtocol.WaitingHasAReason | lrucache/cache.go:87-90 | a thread waits at a state only for another one that is in its function or about to forget it |
| LruProtocol.AgreementWithoutAdd | lrucache/cache.go:53-126 | without Add, map and list agree one to one within the capacity at every unlocked point |
| LruProtocol.HandedOutIsFresh | lrucache/cache.go:57-85 | a state that Get hands out in any interleaving was made by a step no longer ago than the expiration |
| LruProtocol.GetCachedReturnsWhatWasProduced | lrucache/cache.go:164-175 | without Add, GetCached yields the value produced for the key, or nil with true while its function has not produced one |
| EventCounter.Counter.Increment | eventstat/counter.go:60-79 | one name more by one: its own, or the discard bucket when the map is full and the name new |
| EventCounter.Counter.Swap | eventstat/counter.go:26-39 | the live map is taken, the recycled or a new empty one takes its place |
| EventCounter.PublishAndEmpty | eventstat/counter.go:41-51 | every entry is published exactly once, with the number of names and the marker of discarded events, and the map is emptied |
| EventCounter.StepKeepsMapsApart | eventstat/counter.go:24-58 | live, free and in-flight maps stay pairwise different |
| EventCounter.CountsAreConserved | eventstat/counter.go:24-79 | for every name and every interleaving: published, in flight and live add up to what was counted; the free map is empty and the live map has at most limit + 1 names |
| EventCounter.QuietMeansPublished | eventstat/counter.go:24-58 | with nothing live or in flight, exactly what was counted has been published |
| EventCounter.EveryIncrementIsLogged | eventstat/counter.go:60-79 | every increment counts exactly once |
| EventCounter.NothingIsDiscarded | eventstat/counter.go:60-79 | while no more names than the limit are used, each increment counts under its own name, in order, and nothing is discarded |
| BloomFilter.WindowIsCyclic | bloomfilter/filter.go:124-132 | the window of nine bytes wraps around the id |
| BloomFilter.OffsetsDistinct | bloomfilter/filter.go:118-122 | for every seed the first 32 probes start at different offsets |
| BloomFilter.ProbeOffsets | bloomfilter/filter.go:24-122 | where the probes start and how they step, by the bits of the seed |
| BloomFilter.ProbeBytes | bloomfilter/filter.go:124-132 | hash and bit of a probe in bytes of the id, cyclically |
| BloomFilter.Subrange | bloomfilter/filter.go:124-132 | hash and bit of the window, unwrapped or not |
| BloomFilter.Filter.Add | bloomfilter/filter.go:81-95 | sets exactly the probed bits of the id in addition |
| BloomFilter.Filter.Contains | bloomfilter/filter.go:98-116 | true exactly when every probe of the id finds its bit set |
| BloomFilter.AddedIsMember | bloomfilter/filter.go:81-116 | an added id is found, and earlier ones stay found |
| BloomFilter.NoFalseNegatives | bloomfilter/filter.go:81-116 | after any sequence of Adds every id added is found |
| BloomFilter.FoundExactly | bloomfilter/filter.go:81-116 | after any sequence of Adds an id is found exactly when each of its probes was hit before or meets a bit that a probe of an added id meets |
| BloomFilter.BytesRoundTrip | bloomfilter/filter.go:137-165 | decoding undoes encoding exactly with at least one hash, and encoding undoes decoding always |

## Left out

- `EncNullBase64URL` and the encryption bypass: the roles of encoding and decoding are swapped there and base64 decoding is lenient; the branches are in the model, no round trip is claimed.
- Cryptographic strength: HMAC, AES-GCM, SecretBox and the checksum of Base58Check are unknown functions with fixed lengths, and opening undoes sealing.
- Protobuf: marshalling of a caveat is a pair of functions of which one undoes the other; so is the marshalling of the scope inside an access grant.
- Clocks and random nonces are parameters. `time.Time` is an integer with Go's zero time at 0.
- Integer widths: chunk totals in Base58, byte carries, uint32 padding counts and varints are modelled with their limits; sizes and offsets of files, block numbers and event counts are unbounded.
- Object identity of results: maps revealed by a lookup and the default key are values here, so callers that write into them are not modelled.
- Error texts and wrapping: an error is its kind.
- Callbacks that stop an iteration early, and the errors and the context of a revoker: a revoker is the set of revoked tails.
- `Iterate`, `EncryptPrefixWithStoreCipher`, `DeriveContentKey` and `EncryptKey`: thin combinations of members that are modelled.
- A marshalled access grant without its encryption access part, for which `ParseAccess` panics.
- `PadReader`: the streaming form of `Pad`. `Close` of readers.
- Transformers that report `io.EOF` as their own error: none in the repository does.
- Documentation that differs from the code: the comments on starting nonces (encryption/aesgcm.go:25, encryption/secretbox.go:22) say big-endian, the addition is little-endian; the comment on `makePadding` (encryption/pad.go:18-19) speaks of the last byte, the count takes the last four.
- The reader after an error: `Transforms.TransformedReader.Read` says what follows a clean end only. After a failed block the code goes on with the next block under the old number.
- Panics: an empty bloom filter table when there are hashes to compute (which `NewFromBytes` accepts), an LRU `Add` with a capacity below one, and block sizes of zero are excluded where the code would panic. `Get` with a capacity below one only calls its function.
- LruCache.ExpiringLRU.AddSection: does not promise one-to-one agreement or the capacity, because the code does not keep them; `LruSections.AddKeepsContainment` and `LruSections.AddKeepsCapacity` say exactly when it does.
- LruProtocol.GetReturnsWhatWasProduced: with Add in the run the value may also be one given by Add, because a state made by Add still runs its function on the next Get, and may fail.
- LRU pointers: a cache state and its list element are identified by one number, since they are always made together.
- Memory model: sync.Once and the mutex are atomic steps; the unsynchronized read of a value in GetCached is one step.
- Access.CollapseAgreesWithAllows: not for bucket metadata reads and project information, because Allows does not look at path prefixes for them.
- PrefixInfo.ParentAgrees: not for the single empty component as parent, because no raw path stands for it; `PrefixInfo.EmptyComponentParent` and `PrefixInfo.EmptyComponentParentKey` say what holds instead.
- Bloom filter sizing, which is floating point, and the capacity hint in Base58.
- Fresh allocation and reuse of Go maps and slices as an optimization, except where it is observable.
- Certificates, identity, RPC, telemetry, networking and file handling.
