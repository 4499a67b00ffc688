# Indra: packets, onions, address book

A model in Dafny of the parts of Indra that carry messages and remember peers, and proofs about them.

- **Packets.** A message is cut into shards, grouped into sections with parity, sealed one shard to a packet, lost and
  reordered in any way, opened and joined. `Transfer.Transmit` runs the whole way and states exactly when the message
  comes back.
- **Onions.** Layers are written into one buffer and enciphered in place from the inside out; relays decipher in place,
  move the rest to the front and pad. `Peel.Travel` covers any number of Crypt and Forward layers,
  `RoutingHeader.SendThrough` and `RoutingHeader.ReplyThrough` the three-hop routing header and the replies that reuse it.
- **Address book.** A cache of mutable records over a store, lazy expiry, two garbage collectors. `BookRuns.Run` shows
  that every query of every run is answered from one plain map of address to ttl and expiry; `AddrBookGc.Sweep` that the
  lookahead collector leaves what the full one leaves.
- **Codecs and streams.** Based32 strings and the key strings made of them, the address stream loop, the field container,
  the cyclic batch.

Code that changes things in place is a class or a method over arrays with a loop, proved against a function or a plain
specification; everything proved about runs is proved about those. Cryptography is a parameter: `Crypto.Suite` is any
set of functions with a symmetric shared secret, an arbitrary keystream and 32-byte hashes; `Erasure.Code` is any code
in which d of d+p shards determine the data.

## Where the code does less than it is meant to

Each of these is proved, with the exact condition where there is one.

- A payload that fills its last shard is counted one shard too long, and adding parity slices past the end
  (`Shards.CutCount`, `Transfer.SplitToPackets`). Two or more full sections with nothing left over are not trimmed
  (`Shards.MessageIsPayload`). `Transfer.Transmit` has both conditions in one equivalence.
- A packet that arrives twice is looked up by its number where a position is meant, before anything has been removed.
  Without parity it is an error. With parity it can be dropped, panic, stay, or cost another packet
  (`Arrivals.CheckCommon`, `Join.JoinPackets`). If it is the only one, the message is at worst not found
  (`Repeats.OneRepeatOutcome`); with two of them a wrong message can come out without an error (`Repeats.WrongMessage`).
  `Repeats.RepeatsOutcome` has the exact condition for any repeats.
- The constant for a routing layer is 84 bytes, the encoder writes 86. Messages come out under any padding if and only
  if the constant is 86 or 0, replies if and only if it is 86 (`RoutingHeader.HeaderWorks`, `RoutingHeader.ReplyWorks`,
  `RoutingHeader.HeaderBreaks`).
- An address longer than twenty bytes makes encoding panic in a buffer of the declared length (`Onion.EncodeMessage`).
- A record cleaned in the cache alone keeps the lookahead collector from cleaning the stored one
  (`AddrBookGc.PassIsPurge`, `AddrBookGc.StaleRun`).
- Removing several addresses at once can keep a removed one (`RecordOps.DeleteExact`, `RecordOps.OrderMatters`);
  adding an unknown address twice in one call stores it twice (`RecordOps.MergeDistinct`,
  `RecordOps.RepeatStoredTwice`).
- The Based32 check never rejects anything (`Based32.CheckNeverFails`, `Based32.CheckUnused`), though the package
  documentation speaks of validation. A signature string loses two bits of the first byte (`Keys.SigReadsBack`).
- A container of more than 16381 fields cannot be read back (`Splicer.FieldBound`).
- The cyclic batch loses its threshold, so it commits before every operation instead of every twenty, and with a
  threshold it would do so from there on (`CyclicBatch.Life`, `CyclicBatch.Feed`).

## Model

| member | source | states |
|---|---|---|
| `Bytes.LittleEndianRoundTrip` | pkg/util/slice/slice.go:69-101 | decoding an encoded integer gives it modulo 256 to its width |
| `Bytes.LittleEndianOrder` | pkg/util/slice/slice.go:69-101 | the low byte stands first |
| `Bytes.Cat` | pkg/util/slice/slice.go:51-58 | the result is the chunks in order, nothing between them |
| `Bytes.EncipherTwice` | pkg/crypto/ciph/cipher.go:32-42 | enciphering twice with one keystream restores every byte |
| `Bytes.EncipherSwap` | pkg/crypto/ciph/cipher.go:32-42 | two encipherments commute, which replies under a foreign header rely on |
| `Bytes.XorIsExclusive` | pkg/crypto/ciph/cipher.go:38 | a bit of the exclusive or is set exactly when one of the two bits is |
| `Bytes.EncipherHides` | pkg/crypto/ciph/cipher.go:32-42 | zeros become the keystream, and two keystreams give the same byte exactly where they agree |
| `Buffers.EncipherRange` | pkg/crypto/ciph/cipher.go:32-42 | only the range changes, and its keystream starts at the range |
| `Buffers.CopyRanges` | pkg/util/splice/splice.go:192-198 | a copy overlapping either way behaves as if it went through a second buffer |
| `Crypto.Suite.CloakMatches` | pkg/crypto/crypto.go:71-160 | a cloak shows its blinder and is matched by the key it was made for |
| `Crypto.Suite.CloakExact` | pkg/crypto/crypto.go:71-160 | a cloak is matched by another key exactly when the two give the same four bytes of hash with its blinder |
| `Crypto.Suite.BlockShared` | pkg/crypto/ciph/cipher.go:45-52 | both key holders get the keystream of their shared secret and the nonce |
| `PacketCodec.EncodePacket` | pkg/engine/packet/packet.go:152-185 | the buffer written by cursor and enciphered in place is the sealed frame, check in front |
| `PacketCodec.DecodePacket` | pkg/engine/packet/packet.go:113-147 | what is read after deciphering in place, including the too-small and out-of-bounds endings |
| `PacketCodec.SealOpen` | pkg/engine/packet/packet.go:113-223 | opening a sealed packet gives ID, data, and Seq, Length, Parity modulo 2^16, 2^32, 2^8; the check passes and the cloak names the recipient |
| `PacketCodec.SealedFrame` | pkg/engine/packet/packet.go:152-185 | the frame byte by byte: check of the rest, key, cloak, nonce, and the body under the keystream the recipient shares |
| `PacketCodec.BadFrames` | pkg/engine/packet/packet.go:113-223 | a frame is refused exactly when short, with a wrong check or a key off the curve; opening fails exactly below 61 and below 76 bytes |
| `Segcalc.NewSegments` | pkg/engine/packet/segcalc.go:54-100 | the loop over a running parity total gives the closed-form map of full sections and a tail, so it depends on the shard size only |
| `Segcalc.LayoutTiles` | pkg/engine/packet/segcalc.go:54-100 | sections follow without gaps from 0, data shards add up to length/size+1, at most 256 shards each, parity in every section exactly when asked for |
| `Segcalc.LayoutParity` | pkg/engine/packet/segcalc.go:58-98 | full sections carry the parity asked for, the partial one exactly max(1, tail*P/D) |
| `Segcalc.ParityShareSplits` | pkg/engine/packet/segcalc.go:56-68 | the rounded parity total over all shards splits exactly into full sections and the rounded tail share |
| `Shards.Segment` | pkg/util/slice/slice.go:142-156 | equal shards beginning with the payload, no more than needed, for every length |
| `Shards.CutCount` | pkg/engine/packet/segcalc.go:56 | the map counts the shards that are cut when the length leaves a remainder, and one too many otherwise |
| `Shards.MessageIsPayload` | pkg/engine/packet/segcalc.go:56-83 | trimming by the map gives back exactly the payload if and only if it does not end in two or more full sections without a tail |
| `Erasure.AddParity` | pkg/engine/packet/segcalc.go:10-39 | every section is sent as its data followed by the parity of that data; a shard short is a slice panic |
| `Arrivals.SortBySeq` | pkg/engine/packet/segment.go:39 | a sorted permutation, distinctness kept |
| `Arrivals.AllArrivedInPlace` | pkg/engine/packet/segment.go:104-115 | if all of n distinct packets arrived, the sorted packet at position i has number i |
| `Arrivals.CheckCommon` | pkg/engine/packet/segment.go:51-90 | for any packets: the error is that of the first packet at fault, and without one the list names exactly the repeats whose hash is that of the packet at the position of their number |
| `Arrivals.FaultsOf` | pkg/engine/packet/segment.go:51-90 | packets without repeats fail exactly by disagreeing; packets that agree fail at parity 0 exactly by a repeat and with parity exactly by a repeated number that is no position |
| `Arrivals.NoFaultWhen` | pkg/engine/packet/segment.go:51-90 | there is no error exactly when every packet agrees with the first or is a discarded repeat, and every repeat has parity and a number that is a position |
| `Arrivals.RemoveDiscarded` | pkg/engine/packet/segment.go:91-97 | the packets left after removing each listed index shifted by the removals before it |
| `Arrivals.RemovalFails` | pkg/engine/packet/segment.go:91-97 | removal panics exactly when a listed number is below the count of removals before it |
| `Arrivals.CopyGoes` | pkg/engine/packet/segment.go:63-97 | one packet twice, all others once, at most one lower packet missing: one copy goes, all numbers stay |
| `Arrivals.OtherGoes` | pkg/engine/packet/segment.go:63-97 | one packet twice, all others once, two or more lower packets missing: the packet at that position is another one, and what is left stays short of the shard count |
| `Join.JoinShards` | pkg/engine/packet/segment.go:216-223 | a section is appended with its last shard trimmed, or the slice panics |
| `Join.Collate` | pkg/engine/packet/segment.go:116-120 | slots hold the packets by number; it fails exactly for a number past the end |
| `Join.Tally` | pkg/engine/packet/segment.go:124-141 | found and lost positions are exact and counted against the set of arrived numbers |
| `Join.RecoverSection` | pkg/engine/packet/segment.go:123-178 | too few exactly when fewer shards than data shards arrived; otherwise the section's original data |
| `Join.Reassemble` | pkg/engine/packet/segment.go:98-179 | for any packets left: read off by position when their count is the shard count, an error at parity 0 when fewer, else success exactly when every section has enough numbers; the collated list is returned in the last case alone |
| `Join.JoinPackets` | pkg/engine/packet/segment.go:25-179 | for any packets the first fault is reported; the exact outcome for every batch of one transmission, repeats included; for distinct packets success exactly when every section has as many survivors as data shards, and then the message of the original shards and the collated packets; the section named in an error is the first with too few |
| `Repeats.RepeatsOutcome` | pkg/engine/packet/segment.go:63-148 | with parity and any repeats: the message comes out if and only if no repeated number is past the positions, the removals go through, and the packets left either stand in their places section by section or, when their count is not that of the shards, are enough in every section; a wrong message needs as many packets left as shards and a number left twice |
| `Repeats.PositionalSame` | pkg/engine/packet/segment.go:106-115 | shards of one size read off by position give the same message if and only if they do so section by section |
| `Repeats.OneRepeatOutcome` | pkg/engine/packet/segment.go:63-148 | with one packet twice: if and only if the repeated number is a position and every section has enough, not counting a packet lost in place of the copy |
| `Repeats.WrongMessage` | pkg/engine/packet/segment.go:63-115 | packets 0, 0, 1, 1, 2 of three data shards and one parity shard: shard 1 is read twice and the message is wrong without an error |
| `Repeats.TwoPacketsPanic` | pkg/engine/packet/segment.go:63-76 | two packets with one number above 1: a panic |
| `Repeats.JoinRepeated` | pkg/engine/packet/segment.go:25-179 | the same equivalences of the joining method itself |
| `Counting.MissingWithoutParity` | pkg/engine/packet/segment.go:98-103 | at parity 0 a missing packet leaves some section short, so the early return agrees with the general rule |
| `Transfer.SplitToPackets` | pkg/engine/packet/segment.go:190-214 | packet i is shard i, numbered i, sealed to the recipient; which payloads end in a panic instead |
| `Transfer.SealedIsOpened` | pkg/engine/packet/packet.go:113-223 | a sealed packet within the field widths opens to itself for its recipient |
| `Transfer.NotOpened` | pkg/engine/packet/packet.go:194-223 | a frame with a wrong check, or cloaked to a key with another hash, is opened by nobody and not by that key |
| `Transfer.MapsAgree` | pkg/engine/packet/packet.go:29-45 | the map from overhead 76 at the sender and the one from overhead 61 and the opened packet at the receiver are equal |
| `Transfer.Deliver` | pkg/engine/packet/segment.go:25-179 | for any selection and order of sealed packets the payload is joined exactly when enough arrived and the map restores it |
| `Transfer.Transmit` | pkg/engine/packet/segment.go:25-223 | split, seal, lose, reorder, open, join: the payload comes back if and only if enough of each section arrived, the last shard is partial and the map is trimmed |
| `Onion.Splice.PutMultiaddr` | pkg/util/splice/splice.go:118-134 | length byte, address, padding to twenty bytes; longer addresses are not cut; a panic exactly when that does not fit |
| `Onion.AddrFieldBytes` | pkg/util/splice/splice.go:118-134 | the field byte by byte, zeros behind a short address |
| `Onion.Splice.BudgeUp` | pkg/util/splice/splice.go:50-56 | the bytes from the cursor stand at the front, noise behind, length unchanged |
| `Onion.BudgedParts` | pkg/util/splice/splice.go:50-56 | what stood behind the cursor leads, the noise follows |
| `Onion.Splice.Encode` | pkg/codec/onion/crypt/crypt.go:114-161 | on any buffer it goes through exactly when every write and enciphered range fits, moves the cursor by the bytes written, keeps the bytes before, and leaves the image when it ends at the end of the buffer; else a slice panic |
| `Onion.EncodeMessage` | pkg/codec/interfaces.go:47-51 | a buffer of the declared length suffices if and only if no address is longer than twenty bytes (and cuts lie inside); then it holds the image |
| `Onion.FlatFits` | pkg/codec/onion/crypt/crypt.go:137-152 | without depths encoding goes through exactly when the bytes written fit |
| `Onion.WrittenIsLen` | pkg/codec/onion/forward/forward.go:110-117 | the bytes written are at least the declared length, and equal it exactly for short addresses |
| `Onion.Splice.EncodeAddressed` | pkg/codec/onion/forward/forward.go:70-76 | magic, address field of any length, then the inner image, or a panic exactly when something does not fit |
| `Onion.Splice.EncodeInside` | pkg/codec/onion/crypt/crypt.go:130-160 | behind the head, the inner image is enciphered with the header key up to the cut and the payload key from it |
| `Peel.CryptExposes` | pkg/codec/onion/crypt/crypt.go:88-108 | the recipient finds itself in the cloak, derives the sender's keystream and exposes the inner bytes at the front |
| `Peel.CryptNames` | pkg/codec/onion/crypt/crypt.go:168-189 | a relay opens a Crypt exactly when its key gives the hash in the cloak, and leaves the buffer unchanged otherwise |
| `Peel.UnknownDropped` | pkg/codec/onion/crypt/crypt.go:88-99 | bytes with no known magic are left alone |
| `Peel.BadCryptDropped` | pkg/codec/onion/crypt/crypt.go:88-99 | so is a Crypt cut short or with a key off the curve |
| `Peel.ForwardExposes` | pkg/codec/onion/forward/forward.go:60-107 | a Forward yields its address and exposes what it wraps |
| `Peel.StepExposes` | pkg/util/splice/splice.go:50-56 | one relay step removes exactly the outer layer of any onion |
| `Peel.OnionPeels` | pkg/codec/ont/interfaces.go:69-81 | any number of layers ends with the core at offset 0, each Forward's address seen in order, length unchanged |
| `Peel.Handle` | pkg/codec/onion/crypt/crypt.go:168-189 | the in-place handlers of Crypt and Forward leave the buffer of the relay step |
| `Peel.Travel` | pkg/codec/onion/crypt/crypt.go:88-161 | encode any assembled onion and let every relay handle the buffer: the core is at its front, and the relays have read exactly the addresses of the Forward layers in order |
| `RoutingHeader.ShiftHeader` | pkg/codec/onion/reverse/reverse.go:99-125 | deciphering two layers, moving them up, padding and deciphering the payload, as one function of the buffer |
| `RoutingHeader.HandleReverse` | pkg/codec/onion/reverse/reverse.go:90-145 | the whole in-place handler is the reverse step, refusals included |
| `RoutingHeader.DeliveredWhen` | pkg/codec/onion/reverse/reverse.go:125-136 | at its relay a layer goes onward exactly when the four bytes deciphered to the front are the magic, with everything from there in front, and is delivered with the payload in front otherwise |
| `RoutingHeader.ForeignRefuses` | pkg/codec/onion/reverse/reverse.go:104-109 | a relay whose key gives another hash leaves the layer alone |
| `RoutingHeader.UnknownRefused` | pkg/codec/onion/reverse/reverse.go:90-98 | so does any relay with what is no Reverse and Crypt |
| `RoutingHeader.HeaderEncodes` | pkg/engine/onion_skins.go:156-162 | encoding three Reverse and Crypt pairs with depths 3, 2, 1 gives the header image |
| `RoutingHeader.HeaderClosedForm` | pkg/codec/onion/crypt/crypt.go:137-159 | with one layer length, header keys cover exactly the later layers and payload keys exactly the payload |
| `RoutingHeader.HopAdvances` | pkg/codec/onion/reverse/reverse.go:99-136 | a hop brings the next layers forward in clear and takes one cipher off the payload |
| `RoutingHeader.HeaderTravels` | pkg/codec/onion/reverse/reverse.go:99-136 | three hops keep the length; after one and two the next Reverse layer leads in clear; the third delivers the plain message in front, except exactly when the first padding deciphers to the magic |
| `RoutingHeader.FormatReply` | pkg/hidden/hidden.go:139-151 | header bytes, then the response under the three ciphers in turn |
| `RoutingHeader.ReplyIsHeader` | pkg/hidden/hidden.go:139-151 | a reply behind the header of any other message is byte for byte the reply encoded under that header |
| `RoutingHeader.SendThrough` | pkg/codec/onion/reverse/reverse.go:70-145 | encoded header and message, three handlers in turn: the message is delivered in front, exactly unless the first padding spells the magic, and then stands at offset 258 |
| `RoutingHeader.ReplyThrough` | pkg/hidden/hidden.go:139-151 | the same for a formatted reply |
| `RoutingHeader.HeaderBreaks` | pkg/engine/consts/hiddenconst.go:11-30 | for a constant from 45 to 85, the repository's 84 among them, some padding makes the second hop forward a corrupted third layer, for every header |
| `RoutingHeader.HeaderWorks` | pkg/engine/consts/hiddenconst.go:11-30 | for every constant and message: both later layers and, after the third hop, the message come out under any padding if and only if the constant is 86, the length written, or 0 |
| `RoutingHeader.ReplyWorks` | pkg/hidden/hidden.go:128-160 | for every constant and message replied to: every response behind the header cut from it comes out under any padding if and only if the constant is 86 |
| `RoutingHeader.NoReplyOut` | pkg/hidden/hidden.go:128-160 | for every constant but 0 and 86, the repository's 84 among them, no response at all comes out under every padding |
| `Records.RemoveExpired` | pkg/engine/transport/pstoreds/addr_book.go:120-132 | on sorted records the cut leaves exactly the unexpired entries in order |
| `Records.NothingExpired` | pkg/engine/transport/pstoreds/addr_book.go:113-118 | testing only the first entry of a sorted record decides whether any has expired |
| `Records.AddrsRecord.Clean` | pkg/engine/transport/pstoreds/addr_book.go:87-111 | keeps dirty-or-sorted, leaves exactly the unexpired entries sorted, reports every change |
| `Records.LiveTwice` | pkg/engine/transport/pstoreds/addr_book.go:120-132 | expiring in two steps equals expiring at the later time |
| `RecordOps.MergeAddrs` | pkg/engine/transport/pstoreds/addr_book.go:528-586 | known addresses are merged by mode, unknown ones appended and published |
| `RecordOps.MergeDistinct` | pkg/engine/transport/pstoreds/addr_book.go:558-579 | addresses stay distinct if and only if no unknown address is passed twice |
| `RecordOps.RepeatStoredTwice` | pkg/engine/transport/pstoreds/addr_book.go:558-579 | the smallest failing input: an empty record and one address twice |
| `RecordOps.MergeShows` | pkg/engine/transport/pstoreds/addr_book.go:507-591 | the merged record agrees with the same change of a plain map |
| `RecordOps.SetTermsLaws` | pkg/engine/transport/pstoreds/addr_book.go:534-554 | unnamed live terms stay, new ones are as named, overriding gives the named term, extending never less than either in ttl and expiry and always one of the two |
| `RecordOps.UpdateTermsLaws` | pkg/engine/transport/pstoreds/addr_book.go:436-443 | live addresses stay, exactly those with the old ttl change |
| `RecordOps.RemoveTermsLaws` | pkg/engine/transport/pstoreds/addr_book.go:621-640 | exactly the live addresses not named stay, unchanged |
| `RecordOps.RetimeShows` | pkg/engine/transport/pstoreds/addr_book.go:436-443 | retiming a record agrees with retiming the map |
| `RecordOps.DeleteInPlace` | pkg/engine/transport/pstoreds/addr_book.go:596-619 | the array loop, with its early exit, leaves as many entries as do not match, holes filled from the back in order |
| `RecordOps.DeleteExact` | pkg/engine/transport/pstoreds/addr_book.go:596-619 | exactly the matching entries go if and only if none of the entries moved forward matches |
| `RecordOps.OrderMatters` | pkg/engine/transport/pstoreds/addr_book.go:596-619 | the smallest failing input: of three entries the first and last are removed, the last stays and the middle one is lost; in another order the right one stays |
| `RecordOps.OneOrAllExact` | pkg/engine/transport/pstoreds/addr_book.go:596-619 | that holds whenever at most one or all entries match |
| `RecordOps.DeletedTermsExact` | pkg/engine/transport/pstoreds/addr_book.go:596-640 | the same equivalence for the map a record stands for |
| `AddrBook.Book.LoadRecord` | pkg/engine/transport/pstoreds/addr_book.go:244-283 | the unexpired entries of the cached or else stored record, showing the map; the store is written exactly on request and change, the cache gains the record exactly on request |
| `AddrBook.Book.Rewrite` | pkg/engine/transport/pstoreds/addr_book.go:585-590 | dirty, clean and flush keep cache and store in agreement with the changed map |
| `AddrBook.Book.SetAll` | pkg/engine/transport/pstoreds/addr_book.go:507-591 | the map changes as by setting the addresses, repeats of live ones included, every other peer stays; exactly the addresses without a live term are published |
| `AddrBook.Book.AddAddrs` | pkg/engine/transport/pstoreds/addr_book.go:291-299 | extends terms in the map, nothing for a ttl that is not positive |
| `AddrBook.Book.SetAddrs` | pkg/engine/transport/pstoreds/addr_book.go:413-422 | overrides terms in the map, or removes the addresses as deleteAddrs does, whichever they are |
| `AddrBook.Book.DeleteAddrs` | pkg/engine/transport/pstoreds/addr_book.go:621-640 | for any list: the map becomes what deleteInPlace leaves of the loaded record, which is the map without those addresses if and only if no entry moved forward is among them |
| `AddrBook.RemovalExact` | pkg/engine/transport/pstoreds/addr_book.go:621-640 | naming one live address or all of them removes exactly those |
| `AddrBook.Book.UpdateAddrs` | pkg/engine/transport/pstoreds/addr_book.go:426-449 | exactly the live entries with the old ttl get the new term, written back or not |
| `AddrBook.Book.Addrs` | pkg/engine/transport/pstoreds/addr_book.go:452-474 | the live addresses of the map, each once, in the order of the record, which is saved if something had expired |
| `AddrBook.Book.ClearAddrs` | pkg/engine/transport/pstoreds/addr_book.go:498-505 | the peer is gone from cache, store and map |
| `AddrBook.StepLaws` | pkg/engine/transport/pstoreds/addr_book.go:413-505 | no request touches another peer, a cleared peer has nothing, queries and collections change nothing |
| `AddrBook.UnixSeconds` | pkg/engine/transport/pstoreds/addr_book.go:88 | times are whole seconds, rounded down |
| `BookRuns.Run` | pkg/engine/transport/pstoreds/addr_book.go:244-640 | over every run of requests, collector passes and evictions, each query returns exactly the live addresses of the plain map |
| `BookRuns.Compare` | pkg/engine/transport/pstoreds/addr_book.go:244-640 | cached and cacheless books answer every query of every run with the same addresses |
| `BookRuns.AddThenQuery` | pkg/engine/transport/pstoreds/addr_book.go:291-299 | a query after AddAddrs has exactly the addresses it would have had and, until their ttl is over, the ones added |
| `BookRuns.SetThenQuery` | pkg/engine/transport/pstoreds/addr_book.go:413-422 | after SetAddrs the named addresses are answered exactly until the new ttl is over, others as before |
| `BookRuns.AddKeepsAnswers` | pkg/engine/transport/pstoreds/addr_book.go:545-550 | the same of any two answers with and without an AddAddrs, for every peer and time |
| `BookRuns.RunAny` | pkg/engine/transport/pstoreds/addr_book.go:244-640 | runs with any removals: each query returns exactly the live addresses of a map that follows deleteInPlace at removals and the plain map elsewhere |
| `BookRuns.CompareAny` | pkg/engine/transport/pstoreds/addr_book.go:596-640 | cached and cacheless books agree on such runs too, if no two live addresses of a peer expire together when some of its addresses are removed |
| `BookRuns.RemovalUnique` | pkg/engine/transport/pstoreds/addr_book.go:596-640 | without such ties a removal has one outcome |
| `AddrBookGc.Gc.PurgeStore` | pkg/engine/transport/pstoreds/addr_book_gc.go:276-322 | leaves exactly the purged store, and in the cache exactly the records whose stored entries did not change; no live address is lost |
| `AddrBookGc.Gc.PopulateLookahead` | pkg/engine/transport/pstoreds/addr_book_gc.go:329-419 | the index gains exactly the first expiry of each record inside the window, so that every one is due by then |
| `AddrBookGc.Gc.PurgeLookahead` | pkg/engine/transport/pstoreds/addr_book_gc.go:143-274 | exactly the records with a due key are visited, cached ones written back only when they change; no live address is lost; the index is left with exactly the keys not yet due and the next expiry of each visited record inside the window, nothing due stays, and it keeps covering the window, and the store becomes the purged store if and only if the cache is in step |
| `AddrBookGc.PassIsPurge` | pkg/engine/transport/pstoreds/addr_book_gc.go:143-274 | that equivalence: a cached record has expired entries and the stored live ones, or nothing stored has expired; a record cleaned in the cache alone fails it |
| `AddrBookGc.StaleRun` | pkg/engine/transport/pstoreds/addr_book_gc.go:143-419 | from an empty book: an address added, expired, its record loaded without saving, then both halves of the collector; the store is not the purged store |
| `AddrBookGc.StaleStays` | pkg/engine/transport/pstoreds/addr_book.go:244-253 | the same in every valid book with a cached record and something expired in its stored one |
| `AddrBookGc.PassKeepsCover` | pkg/engine/transport/pstoreds/addr_book_gc.go:143-274 | a pass keeps every record in the window covered |
| `AddrBookGc.NoDueKeyStays` | pkg/engine/transport/pstoreds/addr_book_gc.go:176-189 | a visited key goes, and what comes back is not due |
| `AddrBookGc.PurgedTwice` | pkg/engine/transport/pstoreds/addr_book_gc.go:276-322 | purging again later is purging once at the later time |
| `AddrBookGc.Sweep` | pkg/engine/transport/pstoreds/addr_book_gc.go:143-419 | after populating, with cached records equal to stored ones (so always without a cache), any sequence of lookahead purges in the window leaves what one full purge at the last time leaves |
| `CyclicBatch.Batch.Do` | pkg/engine/transport/pstoreds/cyclic_batch.go:35-67 | for any threshold the store is a prefix of the accepted operations; a closed batch refuses without effect |
| `CyclicBatch.Batch.Commit` | pkg/engine/transport/pstoreds/cyclic_batch.go:69-79 | the store holds all accepted operations and the batch is closed |
| `CyclicBatch.LastWins` | pkg/engine/transport/pstoreds/cyclic_batch.go:53-67 | for each key the last operation decides: the value put, or nothing |
| `CyclicBatch.OthersStay` | pkg/engine/transport/pstoreds/cyclic_batch.go:53-67 | keys no operation names are as before |
| `CyclicBatch.Feed` | pkg/engine/transport/pstoreds/cyclic_batch.go:35-67 | for any threshold: the store stays as it was up to that many operations, and after each later one holds all but the last |
| `CyclicBatch.Life` | pkg/engine/transport/pstoreds/cyclic_batch.go:27-79 | a batch as constructed: after every operation all earlier ones are in the store, after Commit all, and nothing later changes it |
| `AddrStream.Stream.Receive` | pkg/engine/transport/pstoremem/addr_book.go:535-546 | a broadcast joins the pending queue exactly when never seen; delivered and pending stay the whole stream |
| `AddrStream.Stream.Deliver` | pkg/engine/transport/pstoremem/addr_book.go:527-534 | the first pending address goes out; output stays enabled exactly while something is pending |
| `AddrStream.StreamDistinct` | pkg/engine/transport/pstoremem/addr_book.go:512-546 | with nothing twice on file the stream carries nothing twice |
| `AddrStream.Interleave` | pkg/engine/transport/pstoremem/addr_book.go:497-555 | for every interleaving a reader gets a prefix of the stream and waits only when it has all of it |
| `AddrStream.Manager.Subscribe` | pkg/engine/transport/pstoremem/addr_book.go:497-505 | a fresh stream over the initial list joins the subscribers of the peer |
| `AddrStream.Manager.RemoveSub` | pkg/engine/transport/pstoremem/addr_book.go:460-481 | exactly that subscriber goes, others and other peers stay, no empty list remains |
| `AddrStream.Manager.BroadcastAddr` | pkg/engine/transport/pstoremem/addr_book.go:484-493 | each stream of the peer receives the address once |
| `Base32.DigitsRoundTrip` | pkg/util/b32/based32/based32.go:53-65 | digits of whole groups of five bytes read back as those bytes |
| `Base32.GroupNumber` | pkg/util/b32/based32/based32.go:53-65 | five bytes and their eight digits are one number, most significant first |
| `Base32.ValueLetter` | pkg/util/b32/constant.go:8 | exactly the letters of the alphabet are digits |
| `Base32.LastDigit` | pkg/util/b32/based32/based32.go:65-93 | replacing the last digit changes nothing before the last byte |
| `Based32.CheckLen` | pkg/util/b32/based32/based32.go:29-33 | two to six check bytes make every frame a multiple of five |
| `Based32.Encode` | pkg/util/b32/based32/based32.go:54-68 | the buffer filled by copies is the frame, its digits but the last are the text; empty input is refused |
| `Based32.FrameReadBack` | pkg/util/b32/based32/based32.go:59-66 | the frame read back holds the check length, the input and the hash of the input up to the byte that lost its digit |
| `Based32.RoundTrip` | pkg/util/b32/based32/based32.go:54-112 | decoding inverts encoding for every non-empty input |
| `Based32.CheckNeverFails` | pkg/util/b32/based32/based32.go:69-112 | for any data the outcome depends on the length byte alone: failure, slice panic or payload |
| `Based32.CheckUnused` | pkg/util/b32/based32/based32.go:69-112 | two codecs with different hashes decode every string alike |
| `Keys.PrvRoundTrip` | pkg/crypto/crypto.go:163-184 | every 32-byte private key survives its string |
| `Keys.PubReadsBack` | pkg/crypto/crypto.go:265-284 | a public key string keeps everything but the first byte, of which it keeps the low bit |
| `Keys.PubRoundTrip` | pkg/crypto/crypto.go:265-284 | 33 bytes survive if and only if the first is 2 or 3, as in compressed keys |
| `Keys.SigReadsBack` | pkg/crypto/crypto.go:309-327 | a signature string keeps everything but the two high bits of the first byte, and decodes one byte long |
| `Keys.SigHas64` | pkg/crypto/crypto.go:309-314 | a signature has 64 bytes whatever was decoded, zeros where that is short |
| `Keys.SigRoundTrip` | pkg/crypto/crypto.go:309-327 | a signature survives if and only if its first byte is below 64 |
| `Splicer.CreateContainer` | pkg/splicer/splicer.go:58-88 | the accumulated offsets and node buffer are the container image, counts and offsets wrapping as in 16 and 32 bits |
| `Splicer.BigEndianOrder` | pkg/splicer/splicer.go:77-85 | the high byte stands first |
| `Splicer.Truncated` | pkg/splicer/splicer.go:90-102 | the magic leads, and a container cut short counts and gives nothing |
| `Splicer.ShortContainer` | pkg/splicer/splicer.go:90-98 | below eight bytes the slice panics |
| `Splicer.CountIsLength` | pkg/splicer/splicer.go:90-98 | the count read back is the number of fields modulo 2^16 |
| `Splicer.GetReads` | pkg/splicer/splicer.go:113-137 | with at most 16381 fields every index returns its field |
| `Splicer.IndexWraps` | pkg/splicer/splicer.go:113-137 | with more, the 16-bit table index of field 16381 wraps and the slice panics |
| `Splicer.FieldBound` | pkg/splicer/splicer.go:58-137 | below 2^32 bytes, count and all fields are read back and nothing beyond, if and only if there are at most 16381 |

## Left out

- Reed-Solomon, secp256k1, SHA-256 and AES themselves: they are parameters with the laws named above.
- Random nonces, keys, blinders and noise, `KeySet.Next` and the clock: parameters of the operations.
- Transfer.Transmit: at most 65536 shards and fewer than 2^32 bytes, the widths of the wire fields; larger messages wrap.
- Transfer.Deliver: the same bounds.
- Join.JoinPackets: what is made of packets of different shard sizes, or of disagreeing copies that are discarded.
- Spare capacity of slices: slicing past the length is a panic, as it is without spare capacity.
- Peel.Handle: engine dispatch behind the buffer step (accounting, sending, `Unwrap`), the rule that
  a message under an identity key must open a session, and placeholder layers without keys.
- Peel.ForwardExposes: an address length past the buffer, a slice panic in the code, is `Dropped` in the step it belongs to.
- RoutingHeader.ShiftHeader: ranges out of bounds, slice panics in the code, are `Refused` in the step around it.
- RoutingHeader.HandleReverse: the address field is skipped by its fixed length, where the cursor ends up in the code; the
  address is not read, nor the panic of a length byte that points past the buffer. The keys are looked up by a cloak and the relay's session is known; a
  relay without the session stops instead of passing on.
- Peel.OnionPeels: assembling links layers by mutating each through `Wrap`; here the nested value is built directly, so
  layers used twice in one onion are not captured.
- RoutingHeader.HeaderTravels: stated for the constant 86, because RoutingHeader.HeaderWorks shows that no header survives
  every padding with the repository's 84; the third hop delivers except for the
  padding stated, and both endings are stated.
- RoutingHeader.SendThrough: for the constant 86, for the same reason.
- RoutingHeader.ReplyThrough: for the constant 86, for the same reason.
- RoutingHeader.ReplyIsHeader: for the constant 86, for the same reason.
- RoutingHeader.HeaderClosedForm: for the constant 86, for the same reason.
- RoutingHeader.HopAdvances: for the constant 86, for the same reason.
- RoutingHeader.HeaderBreaks: shows padding that breaks the header; padding that by chance equals the lost bytes does not.
- AddrBook.Book.SetAll: additions name only live addresses twice; an unknown one twice breaks the record, as stated.
- AddrBook.Book.AddAddrs: the same for a positive ttl.
- AddrBook.Book.SetAddrs: the same for a positive ttl.
- BookRuns.Run: the same, and removals name at most one live address or all of them; outside that the code departs from a
  map, as stated for AddrBook.Book.DeleteAddrs.
  BookRuns.RunAny covers all removals, against a map that follows them.
- BookRuns.Compare: the same runs.
- BookRuns.RunAny: additions name no address twice.
- BookRuns.CompareAny: says nothing for ties, where the order an unstable sort leaves decides.
- `cleanAddrs`, which strips peer suffixes before any of this, store errors, and certified peer records.
- AddrBookGc.Gc.PurgeLookahead: operations are atomic, so the `running` guard is never contended; keys always parse; batch
  writes take effect at once, which is how the batch with its lost threshold behaves towards address records.
- AddrStream.Manager.BroadcastAddr: cancelled subscribers, whose send is skipped.
- The order in which initial stream addresses are sorted: the initial list is any list.
- Base32 text with line breaks or `=` signs, which the standard library skips or pads.
- The `time` and debug segments kept by packets and splices, the dispatcher, sessions, gossip, hidden service set-up, RPC,
  storage and advertisement codecs.
