# MaxMind DB reader: a Dafny model

The MaxMind DB format stores data for IP networks: a packed binary search tree over address bits, then a
data section of self-describing values with pointers. The repository reads it twice, once in Python and once
in a C extension. This project models both readers and proves what a caller relies on: that lookup returns
what the database says, that iteration and lookup describe the same partition of the address space, that the
two readers agree (and exactly when they do not), that decoding inverts encoding under sharing, and that the
locks protect the handle over every interleaving.

The format is the "MaxMind DB File Format Specification" v2.0, cited by section title ("Node Layout",
"Search Lookup Algorithm", "IPv4 addresses in an IPv6 tree", "Data Section Separator", "Data Field Format",
"Payload Size").

## Modules

| file | what it holds |
|---|---|
| Bits.dfy, ByteStrings.dfy | bit strings, bytes, big-endian numbers, slices that are cut off at the end of the buffer |
| SearchTree.dfy | the tree as a rooted graph of records; walks; bounded height |
| NodeLayout.dfy | nodes packed with 24, 28 or 32 bits a record, read and written |
| Lookup.dfy | lookup on the tree: constancy on networks, the IPv4 shortcut, aliases |
| Networks.dfy | the networks that both iterators build |
| Iteration.dfy | the Python generator and the partition it yields |
| LockedReader.dfy | the extension's reader object as one thread sees it: lock, handle, closed flag, and a record of their uses |
| ExtensionIterator.dfy | the C iterator: a linked stack of records with a 16-byte address each, with every early return of `ReaderIter_next` |
| ExtensionReader.dfy | the other calls that take the read lock, with every early return |
| Agreement.dfy | the two iterators compared; the yielded networks compared with lookup |
| OddDatabases.dfy | trees on which the iterators fail or differ |
| Utf8.dfy, Values.dfy, DataDecoder.dfy | text, values and dictionaries; the data section decoder with its loops |
| ControlBytes.dfy, Dictionaries.dfy, ValidText.dfy | the decoder byte by byte; what dictionaries hold; valid text in values |
| DataTermination.dfy, PointerGraph.dfy | when decoding terminates on arbitrary pointers: by bounds, and by the graph of pointers |
| DataFormat.dfy | layouts of values with pointers, and that the decoder returns a value exactly where a layout of it lies |
| DataLocality.dfy | which bytes a decoded value depends on |
| DataEncoding.dfy | sharing; integers; the encoder |
| EntryList.dfy | the C rebuilding of values from libmaxminddb's flat list |
| FileBuffer.dfy | the file-backed buffer: locked seek and read, reverse search |
| ReaderLock.dfy, LockTraces.dfy | the extension's read/write lock protocol over all interleavings, by its states and by the order of its steps |
| PythonReader.dfy, DatabaseLayout.dfy | the pure Python reader on any bytes; databases written from tries, end to end |
| LiteralDatabase.dfy | records and sections byte by byte; lookups in databases that share values through pointers |
| IterationOnBytes.dfy, DatabaseIteration.dfy | both readers iterating over the same bytes; iterating over a written database |
| ExtensionOnDatabase.dfy | the extension's answers and iteration on databases that lay out a trie |

## Conventions

- Addresses, tree paths and prefixes are bit strings, most significant bit first. `Lo(w, p)` and `Hi(w, p)`
  bound the block of `w`-bit numbers that start with path `p`; `PrefixIffInBlock` makes this exact.
- Bytes are numbers from 0 to 255. Shifts and masks are written as halving, doubling and remainders.
- The tree hypothesis of most theorems is `Fits(tree, 0, bits)`: no path of that many bits ends on a node.
  It is exactly the condition under which no lookup reports an invalid node (`InvalidNodeIffTooHigh`),
  and every ranked tree meets it (`RankedFits`).
- The decoder is a function of the buffer and of a bound on nested pointers; `Deep` means that the bound is too
  small. A larger bound never changes another answer. `PointerGraph` says which pointers are followed from a
  field, and that a bound exists exactly for the fields on no cycle of them. The methods take the bound as a
  ghost argument, so it is their termination measure together with the rest of the buffer.
- `Resolve` is a function from data records to what they stand for, or to nothing where reading one raises; the
  iterations are generic in it, so that they yield data pointers, Python values or the extension's values.
- Calls of the extension take a flag `calm`: unless it is set, any allocation or object construction in them may
  fail. What they promise about the lock holds either way, what they promise about the answer when calm.

## Where the code is not what one would expect

- The Python iterator tests `base <= 2**32` where the intended test is `<`. For a network that starts at exactly
  2^32 (::1:0:0) it asks for an impossible IPv4 network and raises (`OddDatabases.PythonFailsOnTwo32`).
- When the zero path ends on a data record after exactly 96 bits, Python skips other networks with the same data
  record as aliases, and the extension yields them (`OddDatabases.PythonSkipsSharedStart`).
- When the zero path ends on a data record before 96 bits, both iterators compute a negative prefix length and
  fail at once (`OddDatabases.BothFailOnShortZeroPath`). `IteratorsAgreeIff` and `PythonIterationFailsIff` say
  exactly when all this matters.
- `FileBuffer.rfind` reads one byte less than it should, so it misses a match that ends at the last byte
  (`FileBuffer.RFindMissesTheEnd`), and it fails when it starts at the end: `RFindIsPlainIff`. The metadata
  search is not affected (`MetadataIsFound`).
- The extension builds `bytearray` where Python builds `bytes`; on records without byte strings, and only on
  those, the two build values of the same types (`EntryList.ReadersBuildTheSameValue`).
- The Python decoder takes any hashable value as a map key, and then `1`, `1.0` and `True` are one key.
- A non-negative int32 may take fewer than four bytes and is padded with zeros; a negative one takes four.

## Model

| member | source | states |
|---|---|---|
| Bits.OrBitSets | extension/maxminddb.c:841 | setting a bit in place sets that bit and changes no other |
| Bits.BigEndianIsVal | maxminddb/decoder.py:115-118 | reading whole bytes big-endian gives the number of their bits |
| Bits.PrefixIffInBlock | maxminddb/reader.py:174-184 | an address is in the block of a path exactly when it starts with the path |
| SearchTree.Walk | maxminddb/reader.py:199-203 | a walk uses at most all bits, and all of them if it ends on a node |
| SearchTree.WalkPrefix | maxminddb/reader.py:194-212 | a walk depends on no bit after those it reports |
| SearchTree.NoCycle | maxminddb/reader.py:169-192 | in a tree of bounded height no record is its own descendant |
| SearchTree.FitsIffEveryWalkStops | maxminddb/reader.py:194-212 | bounded height, if and only if every walk of that many bits leaves the nodes |
| SearchTree.RankedFits | maxminddb/reader.py:194-212 | a tree whose child nodes have smaller ranks has bounded height |
| NodeLayout.ArrangeBytes | maxminddb/reader.py:227-234 | the pop and insert around the shared middle byte give the record's four bytes |
| NodeLayout.ReadNode | maxminddb/reader.py:219-241 | the method returns the record the layout names, or the error for an unknown size or a cut-off node |
| LiteralDatabase.Record24 | maxminddb/reader.py:224-226 | at 24 bits node n is six bytes from 6n on, three for each record, and struct.error where they are cut off |
| LiteralDatabase.Record28 | maxminddb/reader.py:227-234 | at 28 bits it is seven bytes, the high half of the middle one on top of the left record and the low half on top of the right; IndexError and struct.error where cut off |
| LiteralDatabase.Record32 | maxminddb/reader.py:235-237 | at 32 bits it is eight bytes, four for each record |
| LiteralDatabase.UnknownRecordSize | maxminddb/reader.py:238-240 | any other size is an InvalidDatabaseError |
| NodeLayout.ReadNodeInvertsPackTree | maxminddb/reader.py:219-241 | at 24, 28 and 32 bits every record of a packed tree is read back, whatever follows the tree |
| NodeLayout.TreeOfPackTree | maxminddb/reader.py:219-241 | reading a packed tree gives the tree |
| NodeLayout.PackTreeOf | maxminddb/reader.py:219-241 | packing the tree that was read gives back its bytes |
| NodeLayout.TreeOfIsLocal | maxminddb/reader.py:353-361 | two buffers hold the same tree if and only if their first search-tree-size bytes agree |
| NodeLayout.SearchTreeSizeIsProduct | maxminddb/reader.py:353-361 | the size of the search tree, here counted node by node, is the product the reader computes |
| Lookup.LookupIsConstantOnItsNetwork | maxminddb/reader.py:194-212 | every address of the reported network gets the same pointer and prefix length |
| Lookup.NetworksAreEqualOrDisjoint | maxminddb/reader.py:194-212 | the networks reported for two addresses are equal with equal answers, or disjoint |
| Lookup.InvalidNodeIffTooHigh | maxminddb/reader.py:205-212 | no lookup raises the invalid-node error if and only if the tree has bounded height |
| Lookup.Ipv4ShortcutIsFullWalk | maxminddb/reader.py:103-114 | starting at the cached node gives the record or error of the full 128-bit walk, and its prefix length less 96 or 0 |
| Lookup.AliasLookupIsIpv4Lookup | maxminddb/reader.py:194-217 | below any path of k bits to the IPv4 start, node or not, the next 32 bits are looked up as an IPv4 address with k added to the prefix |
| Lookup.Ipv4SubtreeFits | maxminddb/reader.py:103-114 | the IPv4 subtree of a tree of height 128 has height 32 |
| Networks.IpNetworkIff | maxminddb/reader.py:180-181 | a network is built from a number and a length if and only if it is valid, IPv4 exactly below 2^32 with at most 32 bits; host bits and impossible lengths fail |
| Networks.ValidNetworkFits | maxminddb/reader.py:180-181 | the addresses of a valid network are addresses of its family |
| Networks.PathNetworkIsBlock | maxminddb/reader.py:176-181 | the network of a path is valid and covers exactly the path's block |
| Networks.PythonNetworkIsPathNetwork | maxminddb/reader.py:175-184 | the Python family test builds the path's network, except that it fails at base 2^32 |
| Networks.HostBitsAtTwo32 | maxminddb/reader.py:178-181 | no network of base 2^32 with an IPv4 length can be built |
| Iteration.GenerateYieldsLeaves | maxminddb/reader.py:169-192 | the generator yields the data records in tree order, its integer accumulator being the path's value |
| Iteration.RunOfAll | maxminddb/reader.py:180-192 | a run yields its items in order up to the first that raises |
| Iteration.LeavesAscend | maxminddb/reader.py:186-192 | the visited blocks ascend without overlap inside the parent's block |
| Iteration.IterationAgreesWithLookup | maxminddb/reader.py:169-212 | for every address, the visited records that cover it are none if it is aliased or empty, else exactly the one lookup reports |
| ExtensionIterator.IsIpv6 | extension/maxminddb.c:760-766 | the loop reports whether one of the first twelve bytes is set |
| ExtensionIterator.SetNextBitAt | extension/maxminddb.c:839-842 | the right child's address has the next bit set and all others as before |
| ExtensionIterator.ChildrenOk | extension/maxminddb.c:817-846 | the two pushed records stand for the paths extended by 0 and by 1, within the address width |
| ExtensionIterator.HighBytesIsHighPath | extension/maxminddb.c:799-803 | the byte test for an alias is the test for a one in the first 96 bits of the path |
| ExtensionIterator.PopKeepsExpansion | extension/maxminddb.c:787-852 | a pop keeps the recursive expansion of the stack, less a visited data record, and lowers the weight |
| ExtensionIterator.AccumulatorsAgree | extension/maxminddb.c:824-842 | the address bytes are Python's shifted accumulator, in the first four bytes for an IPv4 tree |
| ExtensionIterator.PackedNetworkIsPathNetwork | extension/maxminddb.c:879-894 | the bytes and prefix length handed on build the network of the path, for both families |
| ExtensionIterator.OutcomeIsItsRecord | extension/maxminddb.c:853-931 | for each data record the network and the value, or the exception: InvalidDatabaseError without an entry list, that of the rebuilding, ValueError where an IPv4 network would need a negative length |
| ExtensionIterator.ReaderIter.constructor | extension/maxminddb.c:738-755 | a new iterator has the whole traversal before it |
| ExtensionIterator.ReaderIter.GetNext | extension/maxminddb.c:768-940 | every return leaves the lock as it was, taken and given back once unless refused, with the handle used only in between and only while there; a call answers for the first remaining record, or the iteration has ended, or the reader is closed, a ValueError, and the iterator stays as it was |
| ExtensionIterator.ReaderIter.Turn | extension/maxminddb.c:787-937 | a loop turn keeps the remaining sequence and lowers the weight, or answers for its first record and has released the lock; either way the stack is the one `TurnIter` gives |
| ExtensionIterator.ReaderIter.Replace | extension/maxminddb.c:796-850 | a node is skipped as an alias or replaced by its two children, or the lock is released and the list left as it is |
| ExtensionIterator.ReaderIter.Answer | extension/maxminddb.c:853-931 | a data record is answered for with its network and its rebuilt value, or with the exception of the list, the value or the network, and on every path the lock is released once |
| ExtensionIterator.ReaderIter.Pop | extension/maxminddb.c:788-789 | the front record leaves the linked list |
| ExtensionIterator.ReaderIter.Push | extension/maxminddb.c:817-848 | both children stand in front of the old list, left before right |
| ExtensionIterator.Collect | extension/maxminddb.c:768-940 | calling next to the end yields the items of the whole remaining traversal up to the first failure; a close or a refused lock on the way cuts it to a prefix |
| LockedReader.ReaderObject.Close | extension/maxminddb.c:662-680 | the write lock is refused and nothing changes, or it is taken and given back once and the handle, if there, closed once and nulled; then the reader is closed |
| LockedReader.ReaderObject.Dealloc | extension/maxminddb.c:707-716 | deallocation closes a reader that is still open, or leaks the handle when the lock is refused |
| ExtensionReader.GetRecord | extension/maxminddb.c:433-508 | behind the argument checks every return has taken and given back the lock once unless refused, with the handle used only in between; a refused lock is a RuntimeError and a closed reader a ValueError; on an open reader, unless memory lacks, the answer is the one the lookup result stands for |
| ExtensionReader.FailedLookupIsThrown | extension/maxminddb.c:448-464 | the answer to a lookup of 16 bytes in an IPv4 database is a ValueError, to one that ends on a node or on a record that is none an InvalidDatabaseError, and to the empty record nothing |
| ExtensionReader.FoundRecordIsAnswered | extension/maxminddb.c:467-508 | a found record is answered with the value its list is rebuilt to or the exception of that, and the prefix length, less 96 or 0 for an IPv4 address in an IPv6 database |
| ExtensionReader.GetMetadata | extension/maxminddb.c:607-660 | the same for the metadata, which must be a dictionary; a closed reader is an OSError |
| ExtensionReader.Enter | extension/maxminddb.c:682-700 | the same for entering a context, which on a closed reader is a ValueError |
| ExtensionReader.NewIterator | extension/maxminddb.c:718-758 | the same for making an iterator, which has the whole traversal before it; a closed reader is a ValueError |
| Agreement.AliasTestsAgree | extension/maxminddb.c:799-804 | at the IPv4 start node, any one bit in the path and a one in its first 96 bits mean the same |
| Agreement.LeavesAreUnaliasedVisits | maxminddb/reader.py:170-172 | Python visits what the extension visits, less data records equal to the IPv4 start under another path |
| Agreement.VisitsAreLeaves | extension/maxminddb.c:796-804 | the extension visits what the generator would if it skipped at the IPv4 start only when that is a node |
| Agreement.BothFailAtOnce | maxminddb/reader.py:178-181 | with a data record above the IPv4 part of the zero path both iterations raise on their first record |
| Agreement.IteratorsAgreeIff | maxminddb/reader.py:169-192 | whatever records stand for, both iterators yield the same networks and records and end alike, if and only if none of the records that the extension yields starts at 2^32 or is the IPv4 start under another path |
| Agreement.ReadableIteratorsAgreeIff | maxminddb/reader.py:169-192 | when all records can be read, that is: no visited network starts at 2^32 and no data record is both IPv4 start and alias, or both fail at once |
| Agreement.IterateExtension | extension/maxminddb.c:718-940 | from `iter()` to its end the extension yields the networks and rebuilt records of the whole tree, or a prefix if interrupted by a close |
| Agreement.PythonIterationFailsIff | maxminddb/reader.py:175-184 | exactly when the Python iteration raises: a data record above the IPv4 part, a network at 2^32, or a record that cannot be read |
| Agreement.ExtensionIterationFailsIff | extension/maxminddb.c:853-931 | exactly when the extension's iteration raises: the first or the last of these |
| Agreement.ItemsAscend | maxminddb/reader.py:169-192 | the networks Python yields, until it ends or raises, are strictly ascending and disjoint |
| Agreement.ExtensionItemsAscend | extension/maxminddb.c:768-940 | and so are those the extension yields |
| Agreement.ItemsAgreeWithLookup | maxminddb/reader.py:169-212 | for every address, a network Python yields contains it if and only if it is unaliased and lookup reports that network and record |
| Agreement.ExtensionItemsAgreeWithLookup | extension/maxminddb.c:768-940 | the same for the extension, where only an IPv4 start that is a node makes aliases |
| OddDatabases.PythonFailsOnTwo32 | maxminddb/reader.py:178-181 | a tree on which Python raises and the extension does not |
| OddDatabases.PythonSkipsSharedStart | maxminddb/reader.py:170-172 | a tree with an address that lookup finds and the extension yields a network for, and Python does not |
| OddDatabases.BothFailOnShortZeroPath | maxminddb/reader.py:178-181 | a tree on which both iterations raise at once while lookup finds the record |
| Utf8.ValidIffSpelled | maxminddb/decoder.py:120-122 | the byte strings taken for text are exactly the UTF-8 forms of sequences of Unicode scalar values |
| Utf8.AsciiIsValid | maxminddb/decoder.py:120-122 | bytes below 0x80 are valid text |
| Utf8.IllFormedIsInvalid | maxminddb/decoder.py:120-122 | a stray or missing tail, an overlong form, a surrogate or a character behind U+10FFFF makes a string invalid, byte by byte |
| Values.ReducedIsExact | maxminddb/decoder.py:84-90 | numbers of different types are the same dictionary key exactly when they are equal numbers |
| Values.PutNewKey | maxminddb/decoder.py:89 | a key that is the same as no key there goes to the end of the dictionary |
| Dictionaries.TextKeyIsItself | maxminddb/decoder.py:84-90 | a string is the same key as an equal string and as nothing else, and so for byte strings |
| Dictionaries.IntKeyIsItself | maxminddb/decoder.py:84-90 | integers are the same key if and only if they are equal, and truth values are the keys 0 and 1 |
| Dictionaries.DoubleKeyIsItsNumber | maxminddb/decoder.py:84-90 | a normal double is the same key as an integer if and only if (2^52 + fraction) * 2^(exponent - 1075) with its sign is that integer |
| Dictionaries.FloatKeyIsItsNumber | maxminddb/decoder.py:84-90 | the same for a float, with 23 bits of fraction and 150 for 1075 |
| Dictionaries.OddDoubleKeys | maxminddb/decoder.py:84-90 | the same for zero and subnormal doubles; infinities and NaNs are no integer, and only a NaN is not the same key as itself |
| Dictionaries.OddFloatKeys | maxminddb/decoder.py:84-90 | the same for floats |
| Dictionaries.PutKnownText | maxminddb/decoder.py:89 | putting a string key that is there changes the value in its place and nothing else |
| Dictionaries.PutNewText | maxminddb/decoder.py:89 | putting one that is not there appends it |
| Dictionaries.PutAllIsDictionary | maxminddb/decoder.py:84-90 | of pairs with string keys put one by one, each key is there once, in the order of the first pairs, with the value of its last pair, and no other key is there; keys are compared by plain equality |
| Dictionaries.FirstAtIsFirst | maxminddb/decoder.py:84-90 | that order is by the first place of a key among the pairs |
| Dictionaries.LastValueIsLast | maxminddb/decoder.py:84-90 | that value is of a pair with the key behind which no other has it |
| Dictionaries.DecodedMapIsDictionary | maxminddb/decoder.py:84-90 | a decoded map holds, in this sense, the pairs that stand one behind the other in the buffer |
| DataDecoder.Decoder.DecodeAt | maxminddb/decoder.py:140-163 | the method computes the decoding function, whose every case the laws of `ControlBytes` give by its bytes, and terminates wherever a bound on nested pointers suffices |
| DataDecoder.Decoder.PointerAt | maxminddb/decoder.py:92-113 | the value is the target's, the offset is behind the pointer |
| DataDecoder.Decoder.ArrayAt | maxminddb/decoder.py:45-50 | the loop decodes the items one behind the other |
| DataDecoder.Decoder.MapAt | maxminddb/decoder.py:84-90 | the loop decodes keys and values into the dictionary that `DecodedMapIsDictionary` describes, or raises for a key that cannot be hashed |
| ControlBytes.StringField | maxminddb/decoder.py:120-127 | 0x40 + n, n below 29: the next n bytes are a string if they are valid UTF-8, else a UnicodeDecodeError |
| ControlBytes.DoubleField | maxminddb/decoder.py:59-64 | 0x68 is a double of eight bytes; 0x60 with another size raises |
| ControlBytes.BytesField | maxminddb/decoder.py:55-57 | 0x80 + n is the next n bytes |
| ControlBytes.UnsignedField | maxminddb/decoder.py:115-118 | 0xA0 + n and 0xC0 + n are the big-endian number of the next n bytes |
| ControlBytes.MapField | maxminddb/decoder.py:84-90 | 0xE0 + n, or n and 0, is a map of the next n pairs |
| ControlBytes.PairField | maxminddb/decoder.py:87-89 | a pair is a decoded key and the value decoded behind it; a list or dictionary as key is a TypeError |
| ControlBytes.PairRaises | maxminddb/decoder.py:87-89 | a pair raises what its key raises, or else what its value raises |
| ControlBytes.NextPair | maxminddb/decoder.py:86-90 | behind any number of decoded pairs the next one is put, or its exception is that of the map |
| ControlBytes.SignedField | maxminddb/decoder.py:73-82 | n and 1 is the next n bytes, of which four are in two's complement and fewer are not negative; more than four, or four cut off, raise struct.error |
| ControlBytes.LongUnsignedField | maxminddb/decoder.py:115-118 | n and 2 or 3 is the big-endian number of the next n bytes |
| ControlBytes.ArrayField | maxminddb/decoder.py:45-50 | n and 4 is an array of the next n items |
| ControlBytes.NextItem | maxminddb/decoder.py:46-50 | behind any number of decoded items the next one is appended, or its exception is that of the array |
| ControlBytes.BooleanField | maxminddb/decoder.py:52-53 | n and 7 is whether n is not 0 |
| ControlBytes.FloatField | maxminddb/decoder.py:66-71 | 4 and 8 is a float of four bytes; another size raises |
| ControlBytes.NoField | maxminddb/decoder.py:154-160 | every other extended type byte is an InvalidDatabaseError |
| ControlBytes.CutOffField | maxminddb/decoder.py:147-152 | a control byte or extended type byte behind the end is an IndexError |
| ControlBytes.SizeInOneByte | maxminddb/decoder.py:199-201 | size bits 29 add 29 to the next byte |
| ControlBytes.SizeInTwoBytes | maxminddb/decoder.py:205-209 | size bits 30 add 285 to the next two bytes, or raise struct.error |
| ControlBytes.SizeInThreeBytes | maxminddb/decoder.py:211-214 | size bits 31 add 65821 to the next three |
| ControlBytes.CutOffReal | maxminddb/decoder.py:59-71 | a double or float cut off by the end raises struct.error |
| ControlBytes.CutOffPayload | maxminddb/decoder.py:115-118 | a byte string or unsigned number cut off by the end is what is left of it |
| ControlBytes.PointerField | maxminddb/decoder.py:92-113 | 0x20 + v, 0x28 + v, 0x30 + v and 0x38 + v are the values at the offsets that their one to four bytes give, v and 2048 or 526336 added, counted from the base |
| ControlBytes.CutOffPointer | maxminddb/decoder.py:92-108 | a pointer cut off by the end raises struct.error |
| ValidText.DecodedTextsAreValid | maxminddb/decoder.py:120-122 | every string in a decoded value is valid UTF-8, at any depth and in keys |
| DataDecoder.MoreDepth | maxminddb/decoder.py:92-113 | a larger bound on nested pointers changes no answer |
| PointerGraph.FollowedIsDeep | maxminddb/decoder.py:92-113 | where a pointer is followed for whose target a bound is too small, one more is too small for the field |
| PointerGraph.DeepIsFollowed | maxminddb/decoder.py:92-113 | and where a bound is too small for a field, such a pointer is followed, whatever containers lie around it |
| PointerGraph.PointerCycleIsDeep | maxminddb/decoder.py:112 | no bound suffices for the fields of a set from each of which a pointer into the set is followed, directly or out of containers |
| PointerGraph.TerminatesIffNoCycle | maxminddb/decoder.py:92-113 | decoding a field terminates if and only if the field lies in no such set |
| PointerGraph.RankedSettles | maxminddb/decoder.py:92-113 | where every followed pointer lowers a rank, the rank of a field bounds the nested pointers |
| PointerGraph.FollowedIsScanned | maxminddb/decoder.py:45-113 | a scan that follows no pointer finds every pointer that decoding follows |
| PointerGraph.AcyclicSettles | maxminddb/decoder.py:92-113 | where the scanned pointers of a set of fields stay in it and lower a rank, decoding terminates within the rank |
| PointerGraph.CyclicArrayNeverSettles | maxminddb/decoder.py:45-50 | an array whose item points back at it is decoded for ever |
| DataTermination.StaysStable | maxminddb/decoder.py:92-113 | once one more nested pointer settles no further offset, another one does not change any answer |
| DataTermination.TerminatesIffWithinLength | maxminddb/decoder.py:92-113 | however the pointers of a buffer point at one another, decoding terminates if and only if it does with at most as many nested pointers as the buffer has bytes, and the answer is the same |
| DataFormat.SizeIsRead | maxminddb/decoder.py:189-214 | each of the four size forms is read back as the size it was written for |
| DataFormat.HeadIsRead | maxminddb/decoder.py:147-162 | control byte, extended type byte and size are read back, with the offset behind them |
| DataFormat.PointerIsRead | maxminddb/decoder.py:92-108 | each of the four pointer forms is read back as its target |
| DataFormat.ScalarIsRead | maxminddb/decoder.py:52-82 | a scalar is read exactly when its size and payload are readable, for text valid UTF-8, then as what they mean, and else fails |
| DataFormat.ReadSizeIsWritten | maxminddb/decoder.py:189-214 | whatever size is read from complete size bytes, those are the bytes written for it, so the forms tile their range |
| DataFormat.ReadHeadIsWritten | maxminddb/decoder.py:147-162 | whatever type and size are read, the bytes there are those the format writes for them, up to the choice of an extended type byte |
| DataFormat.ReadPointerIsWritten | maxminddb/decoder.py:92-108 | whatever pointer is read, its target is in the range of its form and its bytes are those the format writes for it |
| DataFormat.LayoutIsDecoded | maxminddb/decoder.py:140-163 | decoding returns what a layout means and the offset behind its own bytes, needing no more nested pointers than the layout has |
| DataFormat.DecodedIsLayout | maxminddb/decoder.py:140-163 | wherever decoding succeeds on any bytes, a layout of the value is there and ends where decoding stopped |
| DataFormat.DecodeIffLayout | maxminddb/decoder.py:140-163 | on any bytes, decoding returns a value and an end if and only if a layout of that value with that end is there |
| DataLocality.LaidInBoth | maxminddb/decoder.py:92-113 | a layout is in every buffer that holds the same bytes under it and under its pointer targets |
| DataLocality.DecodeDependsOnItsBytes | maxminddb/decoder.py:140-163 | a decoded value and its end depend on nothing but the bytes of its layout and of its pointer targets |
| DataEncoding.SharingIsTransparent | maxminddb/decoder.py:92-113 | layouts that differ only in which values and keys are pointers decode to the same value, each ending behind its own bytes |
| DataEncoding.MinBytesLength | maxminddb/decoder.py:115-118 | the shortest form has at most k bytes if and only if the number fits in k bytes |
| DataEncoding.Int32RoundTrip | maxminddb/decoder.py:73-82 | int32 decoding inverts the shortest form over the whole int32 range |
| DataEncoding.EncodedIsLaid | maxminddb/decoder.py:140-163 | wherever a nested value is written, a readable layout of it without pointers is there, of exactly its size |
| DataEncoding.DecodeInvertsEncode | maxminddb/decoder.py:140-163 | decoding inverts encoding for every nested value at any offset of any buffer |
| EntryList.Cursor.FromEntryDataList | extension/maxminddb.c:1028-1077 | the method computes the rebuilding function, whose cases and exceptions the laws of `ValidText` give, with the cursor on the last entry used |
| EntryList.Cursor.FromMap | extension/maxminddb.c:1079-1116 | the loop rebuilds the announced keys and values into the dictionary that `RebuiltMapIsDictionary` describes, up to the first exception |
| EntryList.Cursor.FromArray | extension/maxminddb.c:1118-1140 | the loop rebuilds the announced items, up to the first exception |
| ValidText.LeafIsItsValue | extension/maxminddb.c:1043-1074 | an entry that is no container is rebuilt as its own value, with `bytearray` for bytes, or raises: UnicodeDecodeError for invalid text, InvalidDatabaseError for an unknown type |
| ValidText.RebuildReads | extension/maxminddb.c:1028-1116 | whatever the list, a rebuilt value holds valid UTF-8 alone, at any depth and in keys, and no entry used for it has a fault; an exception is that of the first entry with a fault, by its kind |
| ValidText.PairIsItsEntries | extension/maxminddb.c:1090-1113 | a pair is a string entry and the entries of its value; invalid text in the key is a UnicodeDecodeError, a missing or failing value its exception |
| Dictionaries.RebuiltMapIsDictionary | extension/maxminddb.c:1079-1116 | a rebuilt dictionary has each string key of the list once, in the order of first entries, with its last value, and no other key |
| EntryList.FromUint128 | extension/maxminddb.c:1142-1171 | two 64-bit halves printed in hex and parsed give the big-endian number of the sixteen bytes |
| EntryList.RebuildInvertsFlatten | extension/maxminddb.c:1028-1140 | rebuilding inverts preorder flattening with anything around it, for empty containers too |
| EntryList.PutAsExtension | extension/maxminddb.c:1112 | putting entries into a dictionary and changing its byte strings to the extension's form can be swapped |
| EntryList.ReadersBuildTheSameValue | extension/maxminddb.c:496-498 | the extension rebuilds the value that the Python decoder returns for the same layout, with `bytearray` for `bytes`, so in the same types if and only if there is no byte string |
| FileBuffer.SharedFile.GetSlice | maxminddb/file.py:30-33 | wherever others have left the file position, slicing the buffer is slicing the bytes of the file |
| FileBuffer.SharedFile.GetByte | maxminddb/file.py:34-35 | indexing gives the byte there, or an error behind the end |
| FileBuffer.RFindIsPlainIff | maxminddb/file.py:39-44 | for every needle and start, with and without `pread`, the search is the plain one if and only if it starts before the end and the needle does not end at the last byte, or it starts at the end and goes through the fallback |
| FileBuffer.RFindMissesTheEnd | maxminddb/file.py:39-44 | a file in which the plain search finds the needle and the file buffer does not |
| FileBuffer.SearchBehindEnd | maxminddb/file.py:39-44 | what a search from the end on gives: an exception with `pread`, and without it one behind the end |
| FileBuffer.MarkerAndWindow | maxminddb/reader.py:40-73 | the marker is three bytes and the name MaxMind.com, and the search starts 131072 bytes before the end |
| FileBuffer.MetadataIsFound | maxminddb/reader.py:70-85 | both kinds of buffer find the last metadata marker, when it and its metadata lie in the last 131072 bytes |
| FileBuffer.StepKeepsInvariant | maxminddb/file.py:62-74 | every step keeps: one process inside the lock, and the position where it sought it |
| FileBuffer.EveryReadIsItsOwnSlice | maxminddb/file.py:62-74 | over every interleaving each read returns the bytes at its own offset, and the reads of a process are its requests in their order, but for one on its way |
| FileBuffer.SharedFile.ReadLocked | maxminddb/file.py:62-74 | whatever others did to the position before the lock was taken, the bytes are those at the given offset, and the lock is free again |
| FileBuffer.OthersKeepPosition | maxminddb/file.py:62-74 | over every interleaving, nobody moves the position while a process is inside the lock |
| ReaderLock.StepKeepsOwn | extension/maxminddb.c:433-500 | every step of a call keeps the lock, handle and flag invariants for its own thread |
| ReaderLock.StepKeepsOther | extension/maxminddb.c:665-677 | and for every other thread, since no writer steps while a reader is inside |
| ReaderLock.TurnKeepsIter | extension/maxminddb.c:787-937 | a turn on an open handle keeps taken plus still expandable equal to the whole sequence |
| ReaderLock.HandleIsSafe | extension/maxminddb.c:662-680 | over every run nobody who saw the reader open loses the handle before release, it is closed at most once, and outside the writer's section closed means null |
| ReaderLock.NoRunFaults | extension/maxminddb.c:195-305 | over every run, no lookup, metadata call or iterator step uses a handle that has been closed |
| ReaderLock.OthersKeepHandle | extension/maxminddb.c:662-680 | over every run, nobody changes the handle or the flag while a thread is inside as a reader, which the calls rely on |
| ReaderLock.CallIsRun | extension/maxminddb.c:195-305 | where no writer holds the lock, whatever events a call can leave are a run of the protocol from wanting the lock to idle, and the turns of an iterator's call take the iterator where as many loop turns take the stack |
| ReaderLock.EveryCallIsBalanced | extension/maxminddb.c:195-305 | at all times of every run each thread has given back the lock as often as taken, but for the call inside it, and every started call took it or failed to, but for one that waits; that each exit of a call gives it back is shown of the calls |
| ReaderLock.YieldedIsPrefix | extension/maxminddb.c:768-940 | what an iterator has taken is a prefix of the undisturbed sequence, under any lookups and closes, although a turn on a closed handle could do anything to it |
| ReaderLock.NothingUsesTheHandleAfterClose | extension/maxminddb.c:780-785 | the closed flag never reverts, and afterwards no thread uses the handle |
| ReaderLock.DeallocationClosesTheHandle | extension/maxminddb.c:707-716 | at deallocation the lock is free and the handle was closed exactly once, unless the write lock could not be taken |
| ReaderLock.SomeCallCanStep | extension/maxminddb.c:195-305 | the protocol never gets stuck while a call is under way, also with a lock that lets no reader past a waiting writer |
| LockTraces.NoUseBehindAClose | extension/maxminddb.c:662-677 | in no run is there a lookup, metadata call or iterator step on the handle behind a close, in the order of the steps alone |
| LockTraces.NulledOnce | extension/maxminddb.c:667-673 | in every run the handle is closed and nulled at most once, and it is there until then |
| LockTraces.DestroyedBehindTheClose | extension/maxminddb.c:707-716 | in a run that destroys the lock the handle has been closed exactly once, unless the deallocation was refused the write lock, and then not at all |
| LockTraces.CallsCanBegin | extension/maxminddb.c:195-305 | a new reader can begin any call but one of an iterator, a close and its deallocation |
| LockTraces.CloseIsRun | extension/maxminddb.c:662-680 | whatever events a close can leave are a run of the protocol from wanting the write lock to idle, with the reader closed at its end unless refused |
| PythonReader.RecordsAndPointersMeet | maxminddb/reader.py:97-100 | tree record node_count + 16 + k names byte k behind the tree and its 16 bytes, where data pointers count from |
| PythonReader.OpenReader | maxminddb/reader.py:103-114 | the loop finds the record that 96 zero bits lead to, or raises where a record cannot be read |
| PythonReader.CachedStartIsIpv4Start | maxminddb/reader.py:103-114 | the node that is kept, for lookups and for iterating, is the IPv4 start of the tree, 0 in an IPv4 database |
| PythonReader.WalkBytesIsWalk | maxminddb/reader.py:199-203 | in a file that holds the whole tree, reading record by record is the walk in the tree |
| PythonReader.Reader.FindAddressInTree | maxminddb/reader.py:194-212 | the loop over packed address bits walks the records of any file, cut off or not, and returns what the walk ends on or the first error |
| PythonReader.Reader.Get | maxminddb/reader.py:130-164 | the answer of a lookup on the bytes, with every error path |
| LiteralDatabase.DataRecord | maxminddb/reader.py:95-100 | a walk to record node_count + 16 + k returns what is decoded k bytes behind node_count * record_size / 4 + 16, from where pointers count, or raises behind the end of the file |
| LiteralDatabase.NoRecord | maxminddb/reader.py:151-164 | a walk to record node_count returns nothing, one that ends on a node is an InvalidDatabaseError, and 16 bytes in an IPv4 database are a ValueError |
| LiteralDatabase.UnreadableRecordIsRaised | maxminddb/reader.py:103-114 | opening the reader and looking an address up raise what reading one of the records of their walks raises |
| LiteralDatabase.StringThroughPointer | maxminddb/reader.py:130-164 | a record that is a pointer to a string is looked up as that string |
| LiteralDatabase.PointerBehindString | maxminddb/reader.py:130-164 | a whole file, byte by byte, in which the record of 128.0.0.0 is a pointer to "en" |
| PythonReader.WalkEndsOnCovering | maxminddb/reader.py:199-203 | a walk ends on the record of the trie end that covers the address, at its depth |
| PythonReader.LookupFindsCovering | maxminddb/reader.py:130-164 | on any bytes that represent a trie, shared nodes and values included, lookup returns the covering end's value and depth |
| PythonReader.LookupIff | maxminddb/reader.py:130-164 | on any bytes, whole tree or not, lookup returns a value if and only if the walk can be read and ends on a data record where a layout of it lies, and nothing if and only if it ends on the empty record |
| DatabaseLayout.DatabaseRepresents | maxminddb/reader.py:97-100 | a written database represents a trie of layouts of its values |
| DatabaseLayout.EndToEnd | maxminddb/reader.py:130-164 | for any trie of values written at 24, 28 or 32 bits, lookup of any address on the bytes returns the covering value and prefix length |
| LiteralDatabase.SharedEndToEnd | maxminddb/reader.py:130-164 | for any trie laid out as a packed tree, sixteen zero bytes and a data section with pointers and shared values, lookup of any address returns the covering value and prefix length |
| IterationOnBytes.ReaderIterationFailsIff | maxminddb/reader.py:175-184 | exactly when iterating over the bytes raises: a data record above the IPv4 part, a network at 2^32, or a record that points behind the file or at data that cannot be decoded |
| IterationOnBytes.YieldedNetworkIsLookedUp | maxminddb/reader.py:166-192 | looking up any address of a yielded network, as 4 or 16 bytes, returns the yielded value with the network's prefix length |
| IterationOnBytes.LookedUpIsYielded | maxminddb/reader.py:166-192 | and every value that lookup finds under an unaliased path is yielded by a whole iteration |
| IterationOnBytes.LayoutIsReadAlike | extension/maxminddb.c:484-498 | a laid out value is read alike by both readers when the library hands over its preorder list |
| IterationOnBytes.ReadersAnswerAlike | extension/maxminddb.c:433-508 | for every address whose record is read alike the extension answers what the pure Python reader answers, value and prefix length, and raises where it raises; the same exception where no data record is reached |
| IterationOnBytes.ExtensionIteratesAlike | extension/maxminddb.c:768-940 | where the visited records are read alike, the extension yields what it would with Python's records, in its own form |
| DatabaseIteration.IterationGivesTrieBack | maxminddb/reader.py:166-192 | iterating over the bytes of a written database yields exactly the trie's ends with values, in address order, each with its network and value, up to the first whose network Python cannot build |
| ExtensionOnDatabase.VisitsAreReadAlike | extension/maxminddb.c:853-866 | on bytes that represent a trie whose values the library hands over, both readers read every visited record alike |
| ExtensionOnDatabase.ExtensionFindsCovering | extension/maxminddb.c:433-508 | on such bytes, shared nodes and values included, the extension answers for every address with the covering end's value, in its own form, and depth |
| ExtensionOnDatabase.PlainIsStrict | extension/maxminddb.c:1047-1071 | a written value whose dictionaries have strings as keys can be flattened: every payload fits its type |
| ExtensionOnDatabase.WrittenLibraryServes | extension/maxminddb.c:484-486 | for every written database there is a library that hands over its values |
| ExtensionOnDatabase.ExtensionEndToEnd | extension/maxminddb.c:433-508 | for any trie of values written at 24, 28 or 32 bits, the extension's lookup of any address gives the covering value in its own form and the prefix length |
| ExtensionOnDatabase.ExtensionIterationGivesTrieBack | extension/maxminddb.c:768-940 | and its iteration yields exactly the trie's ends with values, in address order |

## Left out

- GetNext: the errors of libmaxminddb by their codes. Its calls are taken by contract: `MMDB_read_node` returns the two records typed against the node count or fails without a reason of its own, its IPv4 start is the record that 96 zero bits lead to, it opens no database without nodes, and `LibraryLookup` says what it looks up.
- FromMap: the C code reads a key entry without checking that it is there and a string, so on other lists its behaviour is undefined; they are excluded (`Crash`).
- FromEntryDataList: the same lists are excluded; `long` is taken to have 64 bits.
- Decode: recursion and memory limits of Python; IEEE payloads stay as they are, except where they are dictionary keys.
- ReaderIteration: iterating over a file that holds only part of its tree; lookup covers that case.
- YieldedIsPrefix: one iterator object used by two threads at a time, which the read lock does not exclude, and an iterator used again after a failed allocation, which has lost a part of the tree.
- HandleIsSafe: the read/write lock is taken by its standard contract; the variants without a lock and for Windows are not separate models.
- IpNetwork: parsing addresses from text and all else of the `ipaddress` library beyond building a network from a number or bytes and a length.
- Opening files, modes, memory maps and file descriptors, and closing the pure Python reader.
- Reference counts, module state, argument parsing and the metadata object; the metadata arrives as node count, record size and IP version.
- Build, packaging, documentation and benchmark scripts.
