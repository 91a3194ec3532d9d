# A verified model of go-bt

This project models the parts of the go-bt BitTorrent library whose behaviour spans many steps, and
proves what they keep over all inputs and all runs:

- **bencode**: the recursive decoder in its structured and its raw mode, and the canonical encoder;
- **metainfo**: reading and writing one flat byte range through many files, cutting it into pieces
  and blocks, merging stretches of pieces, and hashing;
- **dht**: the XOR metric and the routing table, nearest-node search, the transaction table, the
  token manager, and the recursive `get_peers` search;
- **peerprotocol**: the wire codec, the connection object, two linked peers, the server's loop,
  the `ut_metadata` message and the allowed-fast set;
- **downloader**: the reassembly of metadata that arrives in pieces.

Code that changes things step by step is modelled as classes and methods with loops; each is proved
equal to a specification function on values, and the properties are lemmas about those functions.
Protocols are state machines, and their properties hold for every sequence of their events. I/O is a
parameter: files are a map from paths to bytes, a connection is the bytes it still delivers, and a
write or a callback that may fail has its outcome as an argument.

`dafny verify dfyconfig.toml` checks the whole project.

## Modules

| file | content |
|---|---|
| ByteStrings, Numbers | byte strings and their order, decimal numbers, shared arithmetic |
| Bencode, BencodeCodec, BencodeTheorems | values and grammar; decoder and encoder objects; round trips and raw mode |
| BencodeFormat | the text in characters; what exactly is accepted; dictionaries that are not canonical |
| Extension | the `ut_metadata` payload |
| MetaInfo, Storage | files of a torrent and offsets; reader and writer refine one flat array |
| Tiling, Hashing | pieces and blocks tile; piece hashes |
| Merging, MergeCoverage | merged stretches are canonical; exactly when merging keeps coverage |
| XorMetric, Closest, RoutingTable | distance and buckets; nearest nodes; placement over every run |
| Transactions, Token, PeerSearch | conservation of queries; token lifetime; the search is bounded |
| Wire, WireCodec | frames and streams; the encoder and decoder that run |
| PeerConnection, PeerLink, PeerServer | one connection; two peers agree; what a handler can see |
| Download, FastSet | metadata reassembly; the allowed-fast set |

## Where the code departs from what it seems to promise

The model follows the code. Each departure below has a lemma that says exactly when it occurs.

- A full bucket that replaces a bad node grows past K (`AddWithinK`). If the bad node is not its last entry, the
  last entry is doubled and ids are no longer unique; if it is, the bad node stays (`AddReplaces`,
  `UniqueIdsKeptExactly`).
- A bucket sweep removes exactly the bad nodes only if there is at most one (`SweepExactly`, `BadExactly`).
- Past the end of a directory torrent, an offset is taken as a position in the last file (`LocateBeyond`,
  `WriteBeyond`, `WriteBeyondHarmless`, `ReadBeyond`).
- Two files on one path make the store differ from one array (`OneArrayExactly`).
- Piece offsets and block offsets are 32-bit numbers, and tile only where they do not wrap
  (`FilePiecesTileExactly`, `BlocksTileExactly`, `TorrentBlocksTile`); merged lengths wrap too (`CoverageKeptExactly`, `OverflowLosesCoverage`).
- Suggest and AllowedFast are decoded but not encoded (`RoundTripExactly`, `ReencodesExactly`).
- Raw mode accepts bad integer tokens and unordered keys that the structured decoder refuses, and nothing else
  (`RawAcceptsExactly`, `RawAcceptsMore`).
- Metadata whose size is a multiple of the block size is never completed (`CompletesExactly`).
- At the instant t + 2h itself a token may still be accepted (`TokenLifetime`, `AcceptedAtTheBoundary`).
- The allowed-fast set never holds piece 0, so generation can end only if fewer entries are wanted than there are
  pieces, and does end exactly when enough distinct nonzero numbers are drawn (`CanFinishExactly`, `FinishesExactly`).
- Transaction ids repeat after 2^32 queries (`IdsRepeatExactly`).

## Model

| member | source | states |
|---|---|---|
| ByteStrings.LessExactly | bencode/encode.go:14-16 | keys compare as Go strings: a proper prefix comes first, and otherwise the first differing byte decides |
| ByteStrings.DecimalExactly | bencode/encode.go:110-128 | printed numbers are plain decimal numerals: digits only, no leading zero, denoting the number |
| ByteStrings.ParseIntExactly | bencode/decode.go:246-333 | a number is read exactly if, behind at most one sign, there are only digits and it fits the width; leading zeros are allowed |
| Bencode.SortedKeys | bencode/encode.go:155-177 | the keys of a dictionary in strictly ascending byte order, all of them and no others |
| BencodeCodec.SortKeys | bencode/encode.go:14-16 | in-place sorting of the keys yields the one ascending list, whatever order the map yields |
| BencodeCodec.Encoder.EncodeValue | bencode/encode.go:70-214 | appends the canonical text of the value to what was written before |
| BencodeCodec.Decoder.DecodeInto | bencode/decode.go:174-244 | in either mode, the result, the unread rest, the byte count and the captured bytes are those of the grammar; it ends because every nested value consumes input |
| BencodeCodec.Decoder.DecodeInt | bencode/decode.go:246-293 | an integer token is read to its end mark; in raw mode it is captured without being parsed |
| BencodeCodec.Decoder.DecodeString | bencode/decode.go:295-333 | a length-prefixed string, with its 31-bit length limit and its errors |
| BencodeCodec.Decoder.DecodeList | bencode/decode.go:335-415 | a list, item by item, in both modes |
| BencodeCodec.Decoder.DecodeDict | bencode/decode.go:417-561 | a dictionary with string keys, later duplicates winning, and the optional order check, in both modes |
| BencodeCodec.Decoder.DecodeRaw | bencode/decode.go:174-244 | capture returns exactly the bytes of one value and leaves the decoder behind it |
| BencodeTheorems.IntRoundTrip | bencode/encode.go:110-124 | a number decodes back, with any tail, if and only if it fits a signed 64-bit integer |
| BencodeTheorems.StringRoundTrip | bencode/encode.go:126-128 | a string decodes back, with any tail, if and only if it is shorter than 2^31 bytes |
| BencodeTheorems.RoundTrip | bencode/encode.go:70-214 | decoding encode(v) ++ rest gives v without its nils and leaves rest, also with the order check on; it fails if some number or length does not fit |
| BencodeTheorems.RoundTripExactly | bencode/decode.go:174-244 | the round trip returns v itself if and only if v is nil-free and fits |
| BencodeTheorems.PrefixFree | bencode/encode.go:70-214 | for nil-free values that fit, two encodings with tails are the same bytes only if values and tails are the same |
| BencodeTheorems.Canonical | bencode/encode.go:155-177 | re-encoding any accepted input gives ordered text that decodes to the same value |
| BencodeTheorems.ParseLocal | bencode/decode.go:50-52 | the value depends only on the bytes counted as parsed, not on what follows |
| BencodeTheorems.RawAgrees | bencode/decode.go:335-459 | raw mode accepts all that structured decoding accepts and consumes the same bytes; where only raw mode accepts, the structured error is a bad integer or unordered keys |
| BencodeTheorems.RawAcceptsExactly | bencode/decode.go:246-561 | input that raw mode accepts is accepted structured if and only if, along it, every integer token holds a signed 64-bit number and, with the order check on, no key lies below the one before it |
| BencodeTheorems.CaptureThenDecode | bencode/decode.go:174-244 | decoding a capture alone gives the value that decoding in place gives, with nothing left over |
| BencodeTheorems.RawAcceptsMore | bencode/decode.go:246-293 | an integer token without digits is skipped in raw mode and refused otherwise |
| BencodeFormat.ScalarText | bencode/encode.go:110-128 | an integer is written as i, numeral, e; a string as its length, a colon and its bytes |
| BencodeFormat.ListIs | bencode/encode.go:130-153 | a list is the texts of its items, in order, between l and e |
| BencodeFormat.DictIs | bencode/encode.go:155-177 | a dictionary is the texts of keys and values, keys in ascending byte order, between d and e, without nil values |
| BencodeFormat.StringExactly | bencode/decode.go:295-333 | a string is read exactly from a length below 2^31, a colon and that many bytes |
| BencodeFormat.IntExactly | bencode/decode.go:246-293 | an integer is read exactly from i, a signed 64-bit number up to the first e |
| BencodeFormat.KindByFirstByte | bencode/decode.go:174-244 | the first byte decides the kind of value, and any other byte is refused |
| BencodeFormat.ListUnfolds | bencode/decode.go:335-415 | what is read as a list: the end mark, or a value and then a list |
| BencodeFormat.DictUnfolds | bencode/decode.go:417-561 | what is read as a dictionary: the end mark, or a string, a value and then a dictionary whose entries take precedence |
| BencodeFormat.LastKeyWins | bencode/decode.go:497-561 | keys in any order and repeated decode to the last value of each |
| BencodeFormat.PayloadIs | peerprotocol/extension.go:116-138 | a payload is the dictionary of msg_type, piece and, for data with a size, total_size, then the data |
| BencodeFormat.HeaderInAnyOrder | peerprotocol/extension.go:154-160 | a header with keys in any order, repeated, and mixed with unknown ones fills each field with its last value; the data is what follows |
| Extension.UtMetadataMsg.EncodeToPayload | peerprotocol/extension.go:127-138 | appends the bencoded header and, for data messages only, the data behind it |
| Extension.UtMetadataMsg.DecodeFromPayload | peerprotocol/extension.go:154-160 | fills the fields from the header and takes everything behind it as data |
| Extension.DecodeStruct | bencode/decode.go:417-561 | the dictionary loop into the message's struct stores known keys and skips the others |
| Extension.DecodeField | bencode/decode.go:537-555 | one value goes into the field that its key names, or is decoded and dropped |
| Extension.DataFollowsHeader | peerprotocol/extension.go:154-160 | in every accepted payload the data starts where the first bencoded value ends |
| Extension.PayloadRoundTrip | peerprotocol/extension.go:116-160 | every message comes back from its payload, header fields and data alike, whatever bytes the data holds |
| MetaInfo.TotalLength | metainfo/info.go:133-142 | the sum of the file lengths |
| MetaInfo.GetFileByOffset | metainfo/info.go:154-180 | the search loop finds the file and position of the specification, or panics |
| MetaInfo.LocateInRange | metainfo/info.go:154-180 | for 0 <= offset <= total the position found denotes that flat offset, and is a file's end only at the total |
| MetaInfo.LocateBeyond | metainfo/info.go:174-180 | beyond the total: when it panics, and which wrong position of the last file it names otherwise |
| Storage.Writer.WriteOnce | metainfo/writer.go:99-126 | one turn of the loop writes a nonempty part to one file or stops with the final status |
| Storage.Writer.WriteAt | metainfo/writer.go:95-129 | count, status and files after the loop are those of the specification, with the cache of open files kept valid |
| Storage.Writer.WriteBlock | metainfo/writer.go:90-92 | the same, at piece index times piece length plus offset |
| Storage.Writer.Open | metainfo/writer.go:59-74 | opening creates a missing file once and changes no other |
| Storage.Reader.ReadOnce | metainfo/reader.go:70-93 | one turn of the loop yields bytes of one file or stops with the final status |
| Storage.Reader.ReadAt | metainfo/reader.go:66-96 | fills the buffer's front with what the specification reads and leaves its rest alone |
| Storage.Reader.ReadBlock | metainfo/reader.go:61-63 | the same, at piece index times piece length plus offset |
| Storage.WriteRefines | metainfo/writer.go:95-129 | for distinct paths a write changes exactly flat[offset..offset+n) to the first n bytes; n falls short only at the end of the torrent or at a file that cannot be opened, and then an error is reported |
| Storage.OneArrayExactly | metainfo/writer.go:95-129 | the store acts as one array if and only if no two data-bearing files share a path |
| Storage.SharedPathLeaks | metainfo/file.go:51-60 | with a shared path a written byte shows up elsewhere |
| Storage.WriteBeforeStart | metainfo/writer.go:95-129 | a negative offset writes nothing and reports an error |
| Storage.WriteBeyond | metainfo/info.go:174-180 | past the end of a directory torrent a write lands one length of the last file too early |
| Storage.WritePanics | metainfo/info.go:154-180 | all other writes past the end panic before touching a file |
| Storage.WriteBeyondHarmless | metainfo/info.go:174-180 | a write past the end writes no byte if and only if it cannot reach, or cannot open, the last file of a directory |
| Storage.ReadRefines | metainfo/reader.go:66-96 | a read inside the range returns exactly the flat slice, up to the end or the first byte no file holds, and reports an error if it is short |
| Storage.ReadBeyond | metainfo/info.go:174-180 | past the end of a directory torrent a read equals the read one length of the last file earlier; all other reads past the end panic |
| Storage.WrittenIsReadable | metainfo/reader.go:66-96 | every written position can be read |
| Storage.ReadAfterWrite | metainfo/reader.go:66-96 | any part of a written stretch reads back as written, across file boundaries and empty files |
| Storage.ReadElsewhere | metainfo/reader.go:66-96 | bytes outside the written stretch read as before |
| Tiling.Offset | metainfo/file.go:63-72 | the start of the first file with that path, or a panic; in a single-file torrent always 0, since every file goes by its name |
| Tiling.FilePieces | metainfo/file.go:81-113 | the stretches of the pieces that the file spans, converted to 32-bit numbers |
| Tiling.Cut | metainfo/file.go:94-113 | first, middle and last stretch between two split offsets, an empty last one included |
| Tiling.Blocks | metainfo/piece.go:165-178 | the 16 KiB blocks of a stretch, with their 32-bit offsets |
| Tiling.TilesCoverOnce | metainfo/file.go:81-113 | tiling means that each position of the range is covered exactly once and no other position is |
| Tiling.PiecesTile | metainfo/file.go:81-113 | the stretches lie end to end over exactly the file |
| Tiling.PiecesWithin | metainfo/file.go:81-113 | no stretch crosses a piece boundary |
| Tiling.FilePiecesTileExactly | metainfo/file.go:81-113 | after conversion they tile the file if and only if their indexes, offsets and lengths fit 32 bits |
| Tiling.CastTilesExactly | metainfo/file.go:81-113 | converted stretches tile if and only if the conversion changed none |
| Tiling.BlocksAre | metainfo/piece.go:165-178 | block i starts 16384 * i bytes into the stretch, and all but the last have 16384 bytes |
| Tiling.BlocksTileExactly | metainfo/piece.go:165-178 | the blocks tile their stretch if and only if no block offset wraps |
| Tiling.BlocksStayInPiece | metainfo/piece.go:165-178 | where offsets do not wrap, no block leaves its stretch |
| Tiling.BlocksOfAllTile | metainfo/piece.go:165-178 | converted and cut into blocks, tiling stretches still tile if and only if each nonempty one fits 32 bits and its block offsets do not wrap |
| Tiling.BlocksOfAllGood | metainfo/piece.go:165-178 | then every block is within its piece and at most 16384 bytes |
| Tiling.FileBlocksTile | metainfo/piece.go:160-178 | the blocks of one file tile just its range if and only if its stretches fit |
| Tiling.TorrentBlocksTile | metainfo/file.go:63-113 | over all files with distinct paths the blocks tile [0, TotalLength) if and only if all files fit; then none crosses a piece or exceeds 16384 bytes |
| Tiling.OrdinaryTorrentsFit | metainfo/file.go:81-113 | all files fit when the piece length and the number of pieces are below 2^32 |
| Merging.Sort | metainfo/piece.go:183-192 | sorts the array in place by index and offset, as a permutation |
| Merging.Merge | metainfo/piece.go:195-218 | sorts its receiver and returns the merge of the sorted list |
| Merging.MergeGroup | metainfo/piece.go:220-260 | appends the merge of one group of equal index |
| Merging.MergeKeepsCoverage | metainfo/piece.go:195-260 | when stretches end below 2^32, every byte of every piece is covered as often after merging as before, and the result ends below 2^32 too |
| MergeCoverage.CoverageKeptExactly | metainfo/piece.go:195-260 | on any input, coverage is kept if and only if no run of touching stretches is 2^32 bytes or longer |
| MergeCoverage.SameCoverageHoldsAlike | metainfo/piece.go:220-260 | lists with the same coverage hold the same number of bytes in all |
| MergeCoverage.WrappingLoses | metainfo/piece.go:220-260 | a joined length that wraps makes the result hold strictly fewer bytes |
| Merging.CoveragePermuted | metainfo/piece.go:195-218 | coverage does not depend on the order of the input |
| Merging.MergeSeparates | metainfo/piece.go:220-260 | disjoint stretches merge into ascending ones with a gap between any two of the same piece |
| Merging.SeparatedUnique | metainfo/piece.go:220-260 | two separated lists that cover the same bytes are equal |
| Merging.MergeIsCanonical | metainfo/piece.go:195-260 | the result depends only on which bytes are covered, not on order or cutting |
| Merging.MergeIdempotent | metainfo/piece.go:195-218 | sorting and merging a result again changes nothing |
| Merging.OverflowLosesCoverage | metainfo/piece.go:220-260 | with a joined length of 2^32 the coverage is lost |
| Hashing.GeneratePieces | metainfo/piece.go:71-88 | one hash per full chunk and one for a shorter last chunk; none on a read error |
| Hashing.WriteFiles | metainfo/piece.go:90-106 | feeds each file up to its length, and fails at the first one missing or short |
| Hashing.GeneratePiecesFromFiles | metainfo/piece.go:109-120 | hashes what the files feed into the pipe |
| Hashing.FeedIsFlat | metainfo/piece.go:90-106 | the pipe carries the flat array, and fails if and only if a file is missing or too short |
| Hashing.PieceHashes | metainfo/piece.go:57-88 | there are ceil(total / pieceLength) hashes, and the i-th is that of exactly the flat bytes that Piece(i) describes |
| Hashing.PieceLengthsSum | metainfo/piece.go:63-68 | the piece lengths sum to the total |
| XorMetric.Distcmp | dht/routing_table.go:218-229 | the byte loop compares the XOR distances |
| XorMetric.DistIsOrder | dht/routing_table.go:218-229 | the comparison is antisymmetric and transitive, and zero only for equal ids |
| XorMetric.Bucketid | dht/routing_table.go:334-371 | the loop and its mask switch compute the bucket index |
| XorMetric.FirstBitDiffers | dht/routing_table.go:341-366 | the bit that the mask switch names is the first in which two bytes differ: they agree in all bits before it and, unless equal, differ in it |
| XorMetric.BucketIsSharedPrefix | dht/routing_table.go:334-371 | for an id other than the owner's the index is the number of leading bits they share |
| XorMetric.OwnBucket | dht/routing_table.go:334-371 | the owner's own id has bucket index 159 |
| XorMetric.BucketOrdersDistance | dht/routing_table.go:218-229 | a larger bucket index implies a strictly smaller distance |
| Closest.Search | dht/routing_table.go:198-213 | binary search finds the position behind all nodes that are not farther |
| Closest.NodesByDistance.Push | dht/routing_table.go:198-213 | bounded in-place insertion equals inserting stably and truncating |
| Closest.TakeInsert | dht/routing_table.go:198-213 | truncating early loses nothing that survives truncating late |
| Closest.FindClosest | dht/routing_table.go:180-190 | returns the first maxnum elements of the stable sort of all stored nodes |
| Closest.ClosestCount | dht/routing_table.go:180-190 | as many nodes as asked for are returned, or all there are, the first of the sort |
| Closest.StableSortIsStable | dht/routing_table.go:198-213 | the sort is by distance, a permutation, and keeps nodes of equal id in input order |
| Closest.NothingCloserOmitted | dht/routing_table.go:180-190 | no omitted node is closer than a returned one |
| RoutingTable.AddToBucket | dht/routing_table.go:257-298 | refresh, append, replace a bad node or refuse, as the specification says |
| RoutingTable.AddWithinK | dht/routing_table.go:285-293 | a bucket stays within K if and only if it is not a full one that replaces a bad node |
| RoutingTable.AddReplaces | dht/routing_table.go:285-293 | as a multiset, a replacement takes out the bad node and adds the last entry once more and the new one; when the bad node is the last entry, nothing is taken out |
| RoutingTable.UniqueIdsKeptExactly | dht/routing_table.go:257-298 | from unique ids, adding keeps them unique if and only if it is not a full bucket that replaces a bad node before its last entry |
| RoutingTable.KnownIsRefreshed | dht/routing_table.go:257-265 | a known node at its own address gets the time of now, as does its bucket; all else stays, and the status says updated |
| RoutingTable.ElsewhereIsIgnored | dht/routing_table.go:257-274 | a known id at another address changes nothing |
| RoutingTable.NewIsAdded | dht/routing_table.go:276-298 | a new node is added with the time of now if there is room or a node not heard of for 20 minutes, and refused otherwise |
| RoutingTable.CheckAllNodes | dht/routing_table.go:304-332 | sweeps by indexes collected beforehand, up to a panic |
| RoutingTable.CollectBad | dht/routing_table.go:311-326 | the loop collects the indexes of the bad nodes |
| RoutingTable.DeleteByIndexes | dht/routing_table.go:300-331 | deletes by them in ascending order from the shrinking list |
| RoutingTable.BadExactly | dht/routing_table.go:405-435 | an index is collected exactly if its node was not heard of for more than 20 minutes |
| RoutingTable.BadAfterTwentyMinutes | dht/routing_table.go:257-332 | over every run, a node added or refreshed at t is on no list of bad nodes up to t + 20 minutes, and, if not heard of again, on every list after that |
| RoutingTable.SweepExactly | dht/routing_table.go:300-332 | a sweep keeps exactly the nodes that are not bad if and only if none is bad, or just one in a bucket unchanged for 15 minutes |
| RoutingTable.Table.constructor | dht/routing_table.go:44-73 | loads stored nodes into their buckets, keeping their times |
| RoutingTable.LoadedAreFresh | dht/routing_table.go:59-70 | a loaded table holds only stored nodes heard of less than 15 minutes ago, each with its stored time |
| RoutingTable.FreshIsLoaded | dht/routing_table.go:59-70 | a stored node is loaded into its bucket exactly if it is that young |
| RoutingTable.Table.AddNode | dht/routing_table.go:164-177 | adds to the bucket of the id, never the root itself |
| RoutingTable.Table.CheckAllBuckets | dht/routing_table.go:125-135 | sweeps every bucket in order |
| RoutingTable.SweepsEach | dht/routing_table.go:125-135 | each bucket is swept once, in order, up to the first that panics |
| RoutingTable.RootStaysOut | dht/routing_table.go:164-169 | no run brings the root's own id into a table without it |
| RoutingTable.AddKeepsPlacement | dht/routing_table.go:257-298 | adding keeps every node of a bucket in the bucket of its id |
| RoutingTable.SweepKeepsPlacement | dht/routing_table.go:304-332 | so does sweeping |
| RoutingTable.LoadKeepsPlacement | dht/routing_table.go:55-70 | so does loading |
| RoutingTable.RunKeepsPlacement | dht/routing_table.go:171-177 | after any sequence of adds and sweeps each node in bucket j has bucket index j |
| RoutingTable.BucketsOrderEveryRun | dht/routing_table.go:218-371 | after any load and any run, a node in a later bucket is strictly closer to the root |
| Transactions.Base36Injective | dht/transaction_manager.go:119-121 | different numbers have different base-36 ids |
| Transactions.Base36Exactly | dht/transaction_manager.go:119-121 | an id is the base-36 numeral of its number, digits 0 to 9 and a to z, without leading zero |
| Transactions.IdsRepeatExactly | dht/transaction_manager.go:119-121 | ids of two issued numbers are equal if and only if the numbers agree modulo 2^32 |
| Transactions.Manager.GetTransactionID | dht/transaction_manager.go:119-121 | counts up, wraps at 32 bits, and formats |
| Transactions.Manager.AddTransaction | dht/transaction_manager.go:124-129 | registers under id and address |
| Transactions.Manager.PopTransaction | dht/transaction_manager.go:143-151 | removes and returns what is registered under id and address, if anything |
| Transactions.Manager.Tick | dht/transaction_manager.go:89-107 | one sweep, in some order of the map, times out the expired |
| Transactions.RunInv | dht/transaction_manager.go:89-151 | every state of every legal run satisfies the invariant |
| Transactions.Conservation | dht/transaction_manager.go:89-151 | in every run, registered transactions are the disjoint union of the pending and the completed ones, each completed once |
| Transactions.OutcomesExplained | dht/dht_server.go:489-503 | every completion of every run was made by one event that accounts for its outcome: answered by an accepted reply, failed by an error, both with its id and address, or timed out by a sweep past its age |
| Transactions.MatchingCompletes | dht/dht_server.go:489-503 | an accepted reply with id and address of a pending transaction answers it, an error fails it, and no other is touched |
| Transactions.SentThenPending | dht/dht_server.go:649-664 | a query gets the next number, and once registered is pending, with the others as before |
| Transactions.OnlyTheAskedCompletes | dht/dht_server.go:489-503 | a reply completes at most the transaction with its id and address; one from elsewhere completes nothing |
| Transactions.SweepEndsExpired | dht/transaction_manager.go:89-107 | a sweep ends exactly the transactions older than the interval |
| Token.Manager.constructor | dht/token_manager.go:36-39 | both tokens start equal, no address is known |
| Token.Manager.UpdateToken | dht/token_manager.go:41-46 | the new token becomes the last one |
| Token.Manager.Clear | dht/token_manager.go:48-55 | the loop over the map removes exactly the addresses that expired |
| Token.Manager.Token | dht/token_manager.go:86-93 | returns the new token and stamps the address |
| Token.Manager.Check | dht/token_manager.go:97-107 | accepts either token from a known address |
| Token.RunKeeps | dht/token_manager.go:58-74 | over every run a token is current, then last, then gone, in step with the rotations, and its address is known for 2h |
| Token.TokenLifetime | dht/token_manager.go:41-107 | in every interleaving a token issued at t is accepted before t+2h exactly until the second rotation, hence throughout [t, t+h), and rejected after t+2h; at t+2h only if that rotation is due at this instant and not handled |
| Token.AcceptedAtTheBoundary | dht/token_manager.go:58-74 | a run in which the token is accepted at t+2h |
| Token.StrangersAreRejected | dht/token_manager.go:97-107 | an address that did not ask is rejected with any token |
| Token.ClearedExactly | dht/token_manager.go:48-55 | over runs, a clearing forgets exactly the addresses whose last request is 2h old or older |
| PeerSearch.OnGetPeersResp | dht/dht_server.go:699-758 | the two loops over the returned nodes lead to exactly the specified queries |
| PeerSearch.CollectIsFresh | dht/dht_server.go:723-749 | the collected nodes are new to the visited list and distinct |
| PeerSearch.AsksExactlyTheNew | dht/dht_server.go:699-758 | unless it stops, an answer leads to one query per node that was unvisited and taken by the table, and no other |
| PeerSearch.ChildrenWeigh | dht/dht_server.go:717-757 | the queries that an answer leads to weigh less than the query it answers |
| PeerSearch.StepDescends | dht/dht_server.go:666-758 | every answer, error and timeout strictly lowers the total weight of the pending queries |
| PeerSearch.SearchIsBounded | dht/dht_server.go:777-805 | one GetPeers call sends at most (nodes chosen) * w(SearchDepth) queries and makes at most as many callbacks, one per answer, error or timeout; with no node chosen it makes exactly one callback |
| PeerSearch.NoChainExceedsDepth | dht/dht_server.go:717-721 | in every run, depth and chain position sum to SearchDepth, so no chain is longer |
| Wire.FrameRoundTrip | peerprotocol/message.go:338-401 | an encoded message followed by anything decodes to it and leaves the rest |
| Wire.RoundTripExactly | peerprotocol/message.go:248-401 | that holds if and only if the message is normal, its type is not Suggest or AllowedFast, and its body fits 32 bits and the limit |
| Wire.ReencodesExactly | peerprotocol/message.go:248-325 | an accepted frame re-encodes to the same bytes if and only if it is not a Suggest or an AllowedFast |
| Wire.UnframeIsNormal | peerprotocol/message.go:248-325 | a decoded message holds only the fields of its type |
| Wire.StreamRoundTrip | peerprotocol/message.go:248-401 | decoding the concatenation of any list of encoded messages returns the list |
| Wire.StreamReencodes | peerprotocol/message.go:248-401 | every stream of supported messages is the concatenation of their encodings |
| Wire.BigEndianIs | peerprotocol/message.go:338-401 | numbers are four bytes, most significant first |
| Wire.BareFormat | peerprotocol/message.go:363-366 | types 0 to 3, 14 and 15: length 1 and the type |
| Wire.HaveFormat | peerprotocol/message.go:367-368 | type 4: length 5, the type, the index |
| Wire.TripleFormat | peerprotocol/message.go:369-378 | types 6, 8 and 16: length 13, the type, index, begin and length |
| Wire.PieceFormat | peerprotocol/message.go:381-388 | type 7: index, begin and the block |
| Wire.BitFieldFormat | peerprotocol/message.go:379-380 | type 5: the bits |
| Wire.ExtendedFormat | peerprotocol/message.go:389-392 | type 20: the extended id and the payload |
| Wire.PortFormat | peerprotocol/message.go:393-394 | type 9: length 3, the type, two bytes of port |
| Wire.UnknownFormat | peerprotocol/message.go:395-398 | any other type: its payload as it is |
| Wire.FastFormats | peerprotocol/message.go:282-283 | types 13 and 17 are read as an index and written without one |
| Wire.HeadErrors | peerprotocol/message.go:248-262 | end of input, a partial length and a length above the limit are told apart |
| WireCodec.Buffer.MarshalBinaryType | peerprotocol/message.go:363-401 | appends the payload of the type |
| WireCodec.Buffer.Encode | peerprotocol/message.go:338-361 | placeholder, body and patched length together are the frame |
| WireCodec.LimitedReader.DecodeFields | peerprotocol/message.go:279-322 | the fields of each type, what is left unread, and when the input ends too early |
| WireCodec.DecodeToMessage | peerprotocol/message.go:214-325 | reads exactly one frame, with the limit, the short-read and the unused-bytes errors |
| PeerConnection.HandshakeAccepted | peerprotocol/handshake.go:99-140 | a written handshake is accepted if and only if the infohashes agree or the local one is zero, and leaves what follows |
| PeerConnection.AcceptedIsHandshake | peerprotocol/handshake.go:99-140 | every accepted handshake is one that a peer writes, for the local torrent or any |
| PeerConnection.HeaderIs | peerprotocol/protocol.go:20-22 | the header is byte 19 and the protocol name |
| PeerConnection.PeerConn.constructor | peerprotocol/peerconn.go:193-203 | choked both ways, not interested, connected |
| PeerConnection.PeerConn.WriteMsg | peerprotocol/peerconn.go:371-386 | sends the frame or nothing |
| PeerConnection.PeerConn.SetChoked | peerprotocol/peerconn.go:266-273 | sends only on a change, and changes only if the send succeeded |
| PeerConnection.PeerConn.SetUnchoked | peerprotocol/peerconn.go:279-286 | likewise |
| PeerConnection.PeerConn.SetInterested | peerprotocol/peerconn.go:292-299 | likewise |
| PeerConnection.PeerConn.SetNotInterested | peerprotocol/peerconn.go:305-312 | likewise |
| PeerConnection.SetExactly | peerprotocol/peerconn.go:266-312 | a Set call that succeeds sets its flag and no other, and writes the one frame of its type exactly on a change |
| PeerConnection.PeerConn.Handshake | peerprotocol/peerconn.go:317-341 | succeeds only once, from the connected stage, and moves to the next |
| PeerConnection.PeerConn.ReadMsg | peerprotocol/peerconn.go:346-366 | reads one frame, refuses a late opening message, and leaves the handshook stage |
| PeerConnection.PeerConn.HandleMessage | peerprotocol/peerconn.go:552-675 | sets the mirrored flags, then makes the one call, refusal or skip that the message's type demands |
| PeerConnection.PeerConn.HandleExtMsg | peerprotocol/peerconn.go:677-701 | accepts one extended handshake, and payloads only after it |
| PeerLink.AskKeeps | peerprotocol/peerconn.go:266-312 | a Set call keeps the agreement, whether or not its message can be sent |
| PeerLink.SendKeeps | peerprotocol/peerconn.go:391-540 | so does sending any other message |
| PeerLink.DeliverKeeps | peerprotocol/peerconn.go:557-581 | so does reading and handling the next frame |
| PeerLink.FoldIsLast | peerprotocol/peerconn.go:557-581 | handling messages one after another leaves the value that was announced last |
| PeerLink.PeersAgree | peerprotocol/peerconn.go:193-312 | in every interleaving the bytes in flight decode to messages that lead the receiver's flags to the sender's, that alternate, and with none in flight the flags are equal |
| PeerServer.LoopRun | peerprotocol/server.go:159-180 | the read-handle loop makes exactly the specified calls |
| PeerServer.HandlePeerMessage | peerprotocol/server.go:146-156 | so does the whole connection, with its deferred OnClose |
| PeerServer.LoopIsSafe | peerprotocol/server.go:159-180 | in every loop the calls are those of the frames, in order, with their content, and none but keepalives skipped; none follows a refusal, and stages and extended handshakes are respected |
| PeerServer.LoopIsGated | peerprotocol/peerconn.go:609-672 | no call is made past an extension bit that is off or an interface that the handler lacks |
| PeerServer.ServeIsSafe | peerprotocol/server.go:146-180 | a connection has calls if and only if the handshake succeeds; OnHandShake is first, and OnClose last if and only if it succeeded |
| PeerServer.CloseExactlyOnce | peerprotocol/server.go:146-156 | OnClose runs once if OnHandShake succeeded and not at all otherwise |
| PeerServer.ConnectionIsSafe | peerprotocol/peerconn.go:346-366 | over a whole connection: nothing but OnClose after an error, opening messages only as first frame, OnExtHandShake at most once, OnPayload only after it succeeded |
| PeerServer.CalledExactly | peerprotocol/server.go:159-180 | a frame gets a call if and only if all before it were keepalives or due and accepted, and it is due itself: no late opening message, its extension bit on, no extended message that must be refused |
| PeerServer.CallsAreExpected | peerprotocol/peerconn.go:552-701 | each call is the one for its frame: the typed method exactly if the handler has the interface for the type; and it is accepted as the handler answers |
| PeerServer.ServedExactly | peerprotocol/server.go:146-180 | the same over a whole connection whose handshake succeeded |
| Download.StorePiece | downloader/torrent.go:279-306 | the size checks, the store, the completeness loop and the hash comparison |
| Download.DownloadFrom | downloader/torrent.go:214-308 | the message loop ends as specified |
| Download.TakeKeeps | downloader/torrent.go:240-307 | every message keeps the pieces equal to the latest data received for each |
| Download.EndsEarly | downloader/torrent.go:241-283 | a bad or second handshake, data before it, and data of a wrong size end the loop without a response |
| Download.OutOfRangePanics | downloader/torrent.go:279-284 | a full block for a piece that does not exist is an index out of range |
| Download.EmittedIsSound | downloader/torrent.go:240-307 | a response has exactly the announced size, hashes to the infohash and joins the latest data of each piece in order, for every sequence of messages |
| Download.HonestPeerCompletes | downloader/torrent.go:214-308 | from the start of the loop: idle messages, a handshake offering the size, then honest messages in every order, with every repetition and with others in between, complete the download once each piece has come |
| Download.CompletesExactly | downloader/torrent.go:279-284 | some sequence of messages completes the download if and only if the block size does not divide the metadata size |
| FastSet.SeedIs | peerprotocol/fastset.go:36-46 | the chain starts from the address with its last byte zeroed, then the infohash, so addresses that differ in the last byte start alike |
| FastSet.DrawsAre | peerprotocol/fastset.go:48-54 | draw 5r + i is the i-th big-endian number of the r-th digest in the chain, modulo sz |
| FastSet.GenerateAllowedFastSet | peerprotocol/fastset.go:35-61 | whatever the set holds at first, each draw goes into the next entry unless the whole set already has it; the call says whether all entries were filled |
| FastSet.DrawRound | peerprotocol/fastset.go:51-59 | one digest's five numbers, tried in order until the set is full |
| FastSet.Contains | peerprotocol/fastset.go:63-70 | membership in the whole set, unfilled entries included |
| FastSet.ZeroedFillSelects | peerprotocol/fastset.go:48-60 | from a zeroed set, the entries are the first distinct nonzero draws in order, with zeros behind them |
| FastSet.EntriesAreSound | peerprotocol/fastset.go:48-60 | for any hash function these are distinct, nonzero and below sz |
| FastSet.FinishedIsFinal | peerprotocol/fastset.go:48-60 | a finished set is the same however many rounds are allowed |
| FastSet.SmallerIsPrefix | peerprotocol/fastset.go:48-60 | the set for k entries is a prefix of the set for any larger count |
| FastSet.SelectCounts | peerprotocol/fastset.go:48-60 | as many entries are filled as wanted, or as there are distinct nonzero draws if these are fewer |
| FastSet.FinishesExactly | peerprotocol/fastset.go:48-60 | generation finishes within some rounds if and only if these draw k distinct nonzero numbers |
| FastSet.NeverFinishes | peerprotocol/fastset.go:48-60 | with sz or more entries wanted, no hash and no number of rounds fills the set |
| FastSet.CanFinishExactly | peerprotocol/fastset.go:48-60 | some hash and some number of rounds fill the set if and only if k < sz |

## Left out

- Sockets, deadlines, goroutines, locks and file handles: I/O. Each os call is taken to succeed or fail as a whole.
- Reflection in bencode (pointers, kinds, embedded structs, marshaler interfaces): values are a datatype; of the structs only the `ut_metadata` header is modelled.
- SHA-1, random strings, `filepath.Join` and address formatting: foreign code, taken as any function, any fresh value or a given path.
- Negative file lengths and sums of lengths beyond 63 bits: lengths are natural numbers.
- Extension.DecodeStruct: is for a decoder without the key-order check, the only kind that DecodeFromPayload makes.
- Merging.MergeKeepsCoverage: requires stretches that end below 2^32; CoverageKeptExactly has the exact condition for all inputs.
- Merging.MergeIsCanonical: requires disjoint stretches of positive length that end below 2^32; for others nothing is claimed.
- Tiling.FilePieces: requires a positive piece length; a zero one divides by zero in the original, and a negative one, which no torrent has, is not modelled.
- Transactions.Conservation: is about runs that issue fewer than 2^32 ids, since IdsRepeatExactly shows that ids then repeat.
- PeerSearch.SearchIsBounded: the number of nodes per response is a parameter; that a UDP packet bounds it is not modelled.
- PeerSearch.OnGetPeersResp: the visited list is a value, so a backing array that sibling queries share is not captured; the bounds hold whatever the list contains.
- WireCodec.DecodeToMessage: decodes into a fresh message only, and does not tell a nil slice from an empty one.
- PeerConnection.PeerConn.WriteMsg: an OnWriteMsg hook and a write that is delivered in part are not modelled.
- PeerConnection.PeerConn.HandleMessage: does not model the contents of BitField, Suggests and Fasts, and a handler does not change the connection by itself.
- PeerConnection.PeerConn.HandleExtMsg: how an extended handshake's payload decodes is a table from payloads to numbers of ids.
- PeerLink.PeersAgree: a failed write delivers nothing, and choke and interest messages are sent through the Set calls only.
- PeerServer.LoopRun: does not say which error is logged, nor model a custom Config.HandleMessage.
- Download.DownloadFrom: does not model Close of the downloader, the requests it sends, or metadata sizes that do not fit an int.
- Token.TokenLifetime: ticks are handled at their exact instant, in any order with requests of that instant, and `expired` is even.
- FastSet.GenerateAllowedFastSet: takes a bound on the number of digests, because the original may not end; sz = 0 divides by zero in the original and is excluded.
- RoutingTable: timers, `Sync` and `dump` to storage, and the ping that the sweep sends to dubious nodes.
- `find_node`, `announce_peer`, the blacklist, the peer and token stores of the DHT server.
- Trackers over HTTP and UDP, magnet links, compact address lists: mostly fixed-width formats that would add only easy members.
