# Verified model of the Tuya BLE Mesh protocol stack

This project models the protocol code of the Home Assistant integration `tuya_ble_mesh` and proves what that code
keeps. It follows the program's own parts:

- **SIG Mesh receive and send path.** `NetworkLayer` (encryption, privacy obfuscation), `LowerTransport` (nonces,
  segmentation, headers), `Reassembly` (what a notification does to a device, as functions), `Receiver` (the device
  object: buffers filled in place, proved to do what `Reassembly` says), `Delivery` (sender and receiver together).
- **Sequence numbers.** `SequenceSafety` (the shared counter with saves, crashes and reloads as a transition system),
  `SequenceStore` (the store object and the devices that draw from it), `SendHistory` (the messages and
  network PDUs that are made from the numbers and written out).
- **Telink.** `TelinkCrypto` (counter mode and CBC-MAC), `TelinkPacket` (20-byte packets), `DataPoints` (TLVs).
- **Codecs with carried state.** `Slip` (RFC 1055), `ProxySar` (Mesh Profile section 6.3), `Composition` (Mesh
  Profile section 4.2.1), `Cmac` (RFC 4493).
- **Bookkeeping.** `Correlation`, `Dispatcher`, `Storm`.
- `Bytes` and `Cipher` hold what all of them share.

## How things are modelled

- A byte is a natural number below 256; a mask of low bits is `%`, a shift is `*` or `/`; or and exclusive or are
  defined bit by bit. `u16` and `u32` are what `struct.pack` accepts without raising.
- AES and AES-CCM are a record of functions with laws (`Cipher.Lawful`): the output is as long as the text plus the
  MIC, and opening accepts exactly what sealing produces under the same key, nonce and MIC length.
  `Cipher.TagCipherIsLawful` shows that the laws can be met. UTF-8 is a record with its inverse law.
- A Python exception is a `Result`; `None` is an `Option`.
- Code guarded by a lock or free of awaits is one step. Clocks are parameters of type `real`; a segment carries two
  readings, one for the making of a buffer and one for the cleaning.
- A dictionary whose order matters (`_pending_responses`, the correlation engine's `_pending`) is a sequence.
- Log entries of handed-up payloads, registered requests, issued numbers, encrypted messages, sent PDUs and past
  attempts are ghost history. So are the numbers that an entry had used under a store of its own before the shared one.
- Callbacks are recorded as `Event` values.

## What the proofs show about the code

- A segmented message reaches the receiver, whatever the cipher, exactly when its first sequence number is below
  0x2000 (`Delivery.DeliversExactlyWhen`): the receiver rebuilds the nonce from SeqZero alone.
- A second complete set of duplicates delivers the message a second time (`Delivery.DeliveredOncePerFullSet`).
- Nothing checks the limit of 32 segments; beyond it every single header announces a wrong count
  (`LowerTransport.HeadersAreRightUpTo32`).
- Network PDUs of 10 to 13 bytes with the right NID make decryption raise CryptoError instead of answering, and
  authentic control PDUs of 15 or 16 bytes make it raise IndexError (`NetworkLayer.DecryptRaisesExactlyWhen`,
  `NetworkLayer.IndexErrorAtExactly15And16`); the IV bit is not looked at (`NetworkLayer.IvBitIsIgnored`).
- No sequence number is repeated, and none that an entry had used under its own store is used again, in any run, of any
  number of devices, saves, crashes and reloads, that follows three rules about the counter and the disk
  (`SequenceSafety.NoNumberIsIssuedTwice`): allocate after the load, and the very first number once every entry with a
  history has merged its store; save after the load; crash with the counter at most 100 past the last completed save. No
  entry may have used a number 100 or more past what its own store holds. In such runs no two PDUs sent share a
  network nonce and no two messages share an application or device nonce (`SendHistory.NoNonceIsUsedTwice`,
  `SendHistory.NoMessageNonceIsUsedTwice`). The store itself checks none of the rules. How far
  each is exact:
  - the load: once something was issued, allocating is safe in all states with a given counter if and only if the
    counter is loaded, or used up (`LoadedIsExact`); in a given state, if and only if everything used lies below the
    counter (`AllocatingIsSafeExactlyWhen`). `configure_existing_sig_light` allocates without a load
    (`AllocatingBeforeLoadRepeats`);
  - the merge: `FirstAllocationIsSafeExactlyWhen`. Having merged every store is enough (`MergingEveryStoreIsEnough`),
    having merged only some is not (`AllocatingBeforeMergeRepeats`);
  - the margin: a crash right after an allocation can be made good if and only if the counter is at most 100 past the
    last save (`MarginIsExact`); in general `CrashIsSafeExactlyWhen` and, for every state before the load,
    `LoadingFirstIsSafeExactlyWhen`;
  - the save: `SavingUnloadedIsSafeExactlyWhen`. No caller in the repository was found to reach `_save_seq` before
    `_load_seq`; `SavingBeforeLoadRepeats` is a run of the model, not of the program.
- The docstrings of `_next_seq` and `_next_seqs` speak of a 24-bit wrap; the code raises instead, and the model
  follows the code.
- A storm threshold above 50 can never fire (`Storm.BoundIsHarmlessExactlyUpTo50`).

## Model

| member | source | states |
|---|---|---|
| Bytes.BigEndian | custom_components/tuya_ble_mesh/lib/tuya_ble_mesh/sig_mesh_protocol.py:160-166 | 16-, 24- and 32-bit fields are big-endian: they read as the number their bytes write |
| Cipher.TagCipherIsLawful | custom_components/tuya_ble_mesh/lib/tuya_ble_mesh/sig_mesh_crypto.py:219-273 | the laws assumed of AES-CCM (length, open accepts exactly what seal produces) hold of a concrete cipher, so they are consistent |
| NetworkLayer.EncryptFailsOnlyWhenTooShort | custom_components/tuya_ble_mesh/lib/tuya_ble_mesh/sig_mesh_protocol.py:169-198 | encryption raises exactly for an empty transport PDU of an access message |
| NetworkLayer.DecryptUndoesEncrypt | custom_components/tuya_ble_mesh/lib/tuya_ble_mesh/sig_mesh_protocol.py:158-257 | decryption returns ctl, the low 7 TTL bits, the low 24 sequence bits, src, dst and transport PDU of every encrypted PDU |
| NetworkLayer.EncryptUndoesDecrypt | custom_components/tuya_ble_mesh/lib/tuya_ble_mesh/sig_mesh_protocol.py:169-257 | every accepted PDU is the encryption of the fields returned, but for the IV bit |
| NetworkLayer.PduLayout | custom_components/tuya_ble_mesh/lib/tuya_ble_mesh/sig_mesh_protocol.py:169-198 | every byte of an encrypted PDU: IV bit and NID; the header masked with the first six bytes of the privacy block under the privacy key; destination and transport PDU sealed under the encryption key, with a MIC of 8 bytes for control and 4 for access messages |
| NetworkLayer.AcceptedPduLayout | custom_components/tuya_ble_mesh/lib/tuya_ble_mesh/sig_mesh_protocol.py:201-257 | the same of every accepted PDU, for the fields returned |
| NetworkLayer.IvBitIsIgnored | custom_components/tuya_ble_mesh/lib/tuya_ble_mesh/sig_mesh_protocol.py:213-224 | changing the IV bit of any PDU does not change how it decrypts |
| NetworkLayer.DecryptRaisesExactlyWhen | custom_components/tuya_ble_mesh/lib/tuya_ble_mesh/sig_mesh_protocol.py:221-250 | decryption raises CryptoError if and only if there are 10 to 13 bytes with the right NID, and IndexError if and only if the PDU is built like a control PDU of this network around fewer than two bytes; it raises nothing else |
| NetworkLayer.IndexErrorAtExactly15And16 | custom_components/tuya_ble_mesh/lib/tuya_ble_mesh/sig_mesh_protocol.py:240-250 | under every lawful cipher and all keys, PDUs that raise IndexError exist at a length if and only if it is 15 or 16 |
| NetworkLayer.NetworkNonceLayout | custom_components/tuya_ble_mesh/lib/tuya_ble_mesh/sig_mesh_protocol.py:158-166 | reading the network nonce at the standard's positions gives back CTL/TTL, sequence number, source and IV index |
| NetworkLayer.NonceDeterminesSequence | custom_components/tuya_ble_mesh/lib/tuya_ble_mesh/sig_mesh_protocol.py:158-166 | equal network nonces mean equal 24-bit sequence numbers, whatever the other fields |
| LowerTransport.MakeAccessSegmented | custom_components/tuya_ble_mesh/lib/tuya_ble_mesh/sig_mesh_protocol.py:309-343 | the segmentation loop returns the segments of the definition, about which the next lemmas speak |
| LowerTransport.SegmentLayout | custom_components/tuya_ble_mesh/lib/tuya_ble_mesh/sig_mesh_protocol.py:322-343 | every byte of a segment: SEG, AKF and AID; SZMIC, SeqZero, SegO and SegN at their places in 24 bits; twelve bytes of the payload sealed with a MIC of 4 or 8 bytes |
| LowerTransport.ParsedHeaderLayout | custom_components/tuya_ble_mesh/lib/tuya_ble_mesh/sig_mesh_protocol_codec.py:114-137 | a segment header is read exactly when it is there, and the fields read add up to its bits |
| LowerTransport.HeaderRoundTrip | custom_components/tuya_ble_mesh/lib/tuya_ble_mesh/sig_mesh_protocol_codec.py:114-137 | up to 32 segments, every or-ed header parses back to the fields packed, with its chunk |
| LowerTransport.HeadersAreRightUpTo32 | custom_components/tuya_ble_mesh/lib/tuya_ble_mesh/sig_mesh_protocol.py:326-341 | for every single segment: its header can be read, and announces the true segment count if and only if there are at most 32 segments |
| LowerTransport.SegmentationLosesNothing | custom_components/tuya_ble_mesh/lib/tuya_ble_mesh/sig_mesh_device_commands.py:393-407 | chunks concatenate to the upper PDU, sequence numbers are the contiguous reserved range, and the count reserved from the payload length is the count emitted |
| LowerTransport.NoncesAgreeExactlyWhen | custom_components/tuya_ble_mesh/lib/tuya_ble_mesh/sig_mesh_protocol.py:423 | the receiver's nonce is the sender's if and only if the first sequence number is below 0x2000 |
| LowerTransport.AppNonceLayout | custom_components/tuya_ble_mesh/lib/tuya_ble_mesh/sig_mesh_protocol.py:265-281 | reading the application or device nonce at the standard's positions gives back every field |
| LowerTransport.AppNonceDeterminesSequence | custom_components/tuya_ble_mesh/lib/tuya_ble_mesh/sig_mesh_protocol.py:265-281 | equal application or device nonces mean equal 24-bit sequence numbers, whatever the other fields |
| LowerTransport.UnsegmentedRoundTrip | custom_components/tuya_ble_mesh/lib/tuya_ble_mesh/sig_mesh_protocol.py:284-395 | every unsegmented message of up to 11 bytes decrypts to its payload at the receiver, for all sequence numbers |
| LowerTransport.UnsegmentedLayout | custom_components/tuya_ble_mesh/lib/tuya_ble_mesh/sig_mesh_protocol.py:284-306 | every byte of an unsegmented PDU; more than 11 bytes of payload are refused |
| LowerTransport.AccessAcceptedExactlyWhen | custom_components/tuya_ble_mesh/lib/tuya_ble_mesh/sig_mesh_protocol.py:355-395 | a PDU is accepted with a payload if and only if it is the sealing of that payload under the key that AKF names: the application key for 1, the device key for 0 |
| Reassembly.StepKeepsInvariant | custom_components/tuya_ble_mesh/lib/tuya_ble_mesh/sig_mesh_device_segments.py:205-302 | any notification leaves each buffer under its own key with 1 to segN chunks, and after a segment none older than the timeout |
| Reassembly.RunKeepsInvariant | custom_components/tuya_ble_mesh/lib/tuya_ble_mesh/sig_mesh_device_segments.py:139-302 | the buffer invariant holds after any sequence of notifications, well-formed or not |
| Reassembly.HandUpNeedsFullIndexSet | custom_components/tuya_ble_mesh/lib/tuya_ble_mesh/sig_mesh_device_segments.py:188-286 | a segment hands up at most one payload, only from the exact index set 0..segN, the joined chunks are the sealing of that payload, and whoever waits for it is answered; otherwise nothing is dispatched |
| Reassembly.OpcodeRoundTrip | custom_components/tuya_ble_mesh/lib/tuya_ble_mesh/sig_mesh_protocol_codec.py:253-270 | every one-, two- or three-byte opcode is read back with its parameters |
| Reassembly.ParsedOpcodeWritesBack | custom_components/tuya_ble_mesh/lib/tuya_ble_mesh/sig_mesh_protocol_codec.py:253-270 | what is parsed is an opcode in range that writes back to the data |
| Reassembly.OpcodeLayout | custom_components/tuya_ble_mesh/lib/tuya_ble_mesh/sig_mesh_protocol_codec.py:253-270 | the first byte tells the length of the opcode, whose bytes are read the most significant first; data without a whole opcode is malformed |
| Reassembly.StatusValues | custom_components/tuya_ble_mesh/lib/tuya_ble_mesh/sig_mesh_device_segments.py:364-383 | for every 16-bit value, level and lightness status reach the callbacks on the same signed scale |
| Reassembly.DispatchIsFirstComeFirstServed | custom_components/tuya_ble_mesh/lib/tuya_ble_mesh/sig_mesh_device_segments.py:327-402 | a status takes out the longest-waiting entry of its opcode and only that one, and resolves it unless its future is already done; with no such entry it goes to the callbacks |
| Reassembly.HandedUpAnswers | custom_components/tuya_ble_mesh/lib/tuya_ble_mesh/sig_mesh_device_segments.py:304-358 | a payload that begins with an opcode takes out the first entry waiting for it and, unless that is done, resolves it with the bytes after the opcode; with no such entry it goes to the callbacks; a malformed payload changes nothing |
| Reassembly.RouteTable | custom_components/tuya_ble_mesh/lib/tuya_ble_mesh/sig_mesh_device_segments.py:354-402 | which callback runs for on/off, level, lightness, composition and vendor messages, by opcode and length, and for no other |
| Reassembly.NotificationRaisesExactlyWhen | custom_components/tuya_ble_mesh/lib/tuya_ble_mesh/sig_mesh_device_segments.py:139-170 | a notification raises CryptoError if and only if it has 11 to 14 bytes and the right NID, IndexError if and only if it carries a control PDU around fewer than two bytes, and nothing else |
| Receiver.ReassemblyBuffer.constructor | custom_components/tuya_ble_mesh/lib/tuya_ble_mesh/sig_mesh_device_segments.py:55-67 | a new buffer takes the fields of the first segment and holds no chunk |
| Receiver.SegmentReceiver.ReassembleAndDecryptSegments | custom_components/tuya_ble_mesh/lib/tuya_ble_mesh/sig_mesh_protocol.py:398-429 | the accumulating loop with its early exit equals joining chunks 0..segN and opening the result |
| Receiver.SegmentReceiver.DispatchUnlocked | custom_components/tuya_ble_mesh/lib/tuya_ble_mesh/sig_mesh_device_segments.py:327-408 | the search and removal in the pending responses, the test of the future, and the routing are the dispatch function |
| Receiver.SegmentReceiver.DispatchAccessPayload | custom_components/tuya_ble_mesh/lib/tuya_ble_mesh/sig_mesh_device_segments.py:304-325 | the path shared by segmented and unsegmented payloads logs the payload and answers whoever waits for it; a malformed opcode dispatches nothing |
| Receiver.SegmentReceiver.CompleteReassembly | custom_components/tuya_ble_mesh/lib/tuya_ble_mesh/sig_mesh_device_segments.py:241-286 | the buffer is removed in every case; the payload is dispatched when it decrypts |
| Receiver.SegmentReceiver.CleanStaleBuffers | custom_components/tuya_ble_mesh/lib/tuya_ble_mesh/sig_mesh_device_segments.py:288-302 | deleting the listed keys one by one leaves exactly the buffers within the timeout |
| Receiver.SegmentReceiver.FindBuffer | custom_components/tuya_ble_mesh/lib/tuya_ble_mesh/sig_mesh_device_segments.py:209-222 | the stored buffer is found, or a new empty one is stored under the key |
| Receiver.SegmentReceiver.PutChunk | custom_components/tuya_ble_mesh/lib/tuya_ble_mesh/sig_mesh_device_segments.py:224 | filling a buffer object in place changes that key's buffer and no other |
| Receiver.SegmentReceiver.FileChunk | custom_components/tuya_ble_mesh/lib/tuya_ble_mesh/sig_mesh_device_segments.py:208-224 | finding or making the buffer and putting the chunk in is the filing function on values |
| Receiver.SegmentReceiver.HandleSegment | custom_components/tuya_ble_mesh/lib/tuya_ble_mesh/sig_mesh_device_segments.py:188-239 | the whole new state after a segment, as the function on values gives it |
| Receiver.SegmentReceiver.ProcessNotify | custom_components/tuya_ble_mesh/lib/tuya_ble_mesh/sig_mesh_device_segments.py:139-186 | one notification does one step of the model; an exception leaves the object unchanged; without keys nothing happens |
| Receiver.ProcessAll | custom_components/tuya_ble_mesh/lib/tuya_ble_mesh/sig_mesh_device_segments.py:115-186 | any sequence of notifications takes the object through the run that the delivery theorems speak about |
| Delivery.PacketIs | custom_components/tuya_ble_mesh/lib/tuya_ble_mesh/sig_mesh_device_commands.py:419-435 | a packet on its way is one zero byte (complete, network PDU) and the encrypted segment |
| Delivery.ListenToPacket | custom_components/tuya_ble_mesh/lib/tuya_ble_mesh/sig_mesh_device_commands.py:419-435 | every segment sent as an encrypted proxy PDU is recognised as that segment of that message |
| Delivery.UnsegmentedDelivered | custom_components/tuya_ble_mesh/lib/tuya_ble_mesh/sig_mesh_device_segments.py:139-186 | an unsegmented message of up to 11 bytes, sent as an encrypted proxy PDU, is handed up in every state of the receiver and for every sequence number, answers whoever waits for it, and changes no buffer; a longer one is refused |
| Delivery.ForeignStep | custom_components/tuya_ble_mesh/lib/tuya_ble_mesh/sig_mesh_device_segments.py:205-239 | a notification that is no segment of a key leaves that key's hand-ups alone, and its buffer unless a sweep finds it stale |
| Delivery.RunCollects | custom_components/tuya_ble_mesh/lib/tuya_ble_mesh/sig_mesh_device_segments.py:188-286 | at every point of every schedule, whatever its timing, the receiver holds exactly the chunks since the last completion or stale discard and has handed up once per completion |
| Delivery.DeliveredWhenLastMissingArrives | custom_components/tuya_ble_mesh/lib/tuya_ble_mesh/sig_mesh_device_segments.py:188-358 | any order, duplicates and other traffic: nothing is handed up while an index is missing; when the last one arrives exactly the sent payload is handed up, and the first caller waiting for its opcode, or else the callbacks, get its parameters |
| Delivery.DeliveredOncePerFullSet | custom_components/tuya_ble_mesh/lib/tuya_ble_mesh/sig_mesh_device_segments.py:208-233 | over a whole schedule, whatever its timing, the payload is handed up once per complete index set |
| Delivery.DeliversExactlyWhen | custom_components/tuya_ble_mesh/lib/tuya_ble_mesh/sig_mesh_protocol.py:309-429 | delivery for every lawful cipher if and only if the first sequence number is below 0x2000 |
| SequenceSafety.NoNumberIsIssuedTwice | custom_components/tuya_ble_mesh/ha_sequence.py:24-82 | in every run whose allocations and saves follow a load, whose first allocation follows the merge of every legacy store, and whose crashes leave the counter at most the margin past the last save, the issued numbers are strictly increasing 24-bit numbers and none is one that an entry had used before |
| SequenceSafety.CrashingKeepsSound | custom_components/tuya_ble_mesh/ha_sequence.py:24 | a crash within the margin leaves a state in which the next load puts the counter past every issued number, wherever the new store starts |
| SequenceSafety.LoadingTwiceIsLoadingOnce | custom_components/tuya_ble_mesh/ha_sequence.py:53-78 | a second load of the same entry changes nothing, whatever was saved in between |
| SequenceSafety.LoadedIsEnough | custom_components/tuya_ble_mesh/ha_sequence.py:53-78 | once something was issued, having loaded the network store puts the counter past everything used |
| SequenceSafety.LoadedIsExact | custom_components/tuya_ble_mesh/ha_sequence.py:53-78 | for a given counter, allocating is safe in all states in which something was issued if and only if the counter is loaded, or past the last 24-bit number |
| SequenceSafety.MergedIsEnough | custom_components/tuya_ble_mesh/ha_sequence.py:65-76 | before anything was issued, having merged every legacy store puts the counter past everything used |
| SequenceSafety.MarginIsEnough | custom_components/tuya_ble_mesh/ha_sequence.py:24 | a crash is recoverable while the counter is at most 100 past the last completed save |
| SequenceSafety.MarginIsExact | custom_components/tuya_ble_mesh/ha_sequence.py:24 | right after an allocation, a crash to an empty start can be made good by loading first if and only if there was a save and the counter is at most 100 past it |
| SequenceSafety.MergingEveryStoreIsEnough | custom_components/tuya_ble_mesh/ha_sequence.py:65-76 | when every entry with a history has merged its legacy store, and none had used a number the margin or more past what it saved, the first allocation is past everything used |
| SequenceSafety.AllocatingIsSafeExactlyWhen | custom_components/tuya_ble_mesh/config_flow_sig.py:86-122 | from any ordered state, loaded or not, no continuation without a crash repeats a number if and only if the counter is past everything used |
| SequenceSafety.FirstAllocationIsSafeExactlyWhen | custom_components/tuya_ble_mesh/ha_sequence.py:65-76 | with nothing issued, no number issued from here on is one that an entry had used before if and only if all of these lie below the counter |
| SequenceSafety.LoadingFirstIsSafeExactlyWhen | custom_components/tuya_ble_mesh/ha_sequence.py:53-78 | before the load, no continuation that loads before allocating or saving repeats a number if and only if every number the disk may come to hold restores a counter past everything used |
| SequenceSafety.CrashIsSafeExactlyWhen | custom_components/tuya_ble_mesh/ha_sequence.py:53-78 | after a crash no continuation that loads first repeats a number if and only if the last issued number, and with nothing issued the earlier ones, lie below the restored counter |
| SequenceSafety.SavingUnloadedIsSafeExactlyWhen | custom_components/tuya_ble_mesh/coordinator.py:933-942 | once a number is captured for saving before the load, loading first stays enough if and only if it was before and everything used lies within the margin of that number |
| SequenceSafety.AllocatingBeforeLoadRepeats | custom_components/tuya_ble_mesh/config_flow_sig.py:86-122 | a witness for the allocation rule: a run that allocates before the load repeats number 0 |
| SequenceSafety.SavingBeforeLoadRepeats | custom_components/tuya_ble_mesh/coordinator.py:933-942 | a witness for the save rule, in the model only: a run that saves before the load repeats number 100 |
| SequenceSafety.AllocatingBeforeMergeRepeats | custom_components/tuya_ble_mesh/ha_sequence.py:65-76 | a witness for the merge rule: allocating before the store of another entry is merged repeats a number of that entry |
| SendHistory.SegmentPdus | custom_components/tuya_ble_mesh/lib/tuya_ble_mesh/sig_mesh_device_commands.py:393-435 | the PDUs of a segmented message carry exactly the numbers reserved for it, one each, counted before encryption |
| SendHistory.OnePduIsHeard | custom_components/tuya_ble_mesh/lib/tuya_ble_mesh/sig_mesh_device_commands.py:129-158 | the PDU queued for an unsegmented message is heard as its source and payload |
| SendHistory.SegmentPdusAreTheLinks | custom_components/tuya_ble_mesh/lib/tuya_ble_mesh/sig_mesh_device_commands.py:398-435 | the PDUs queued for a segmented message are the packets of the delivery theorems |
| SendHistory.PerformKeepsSound | custom_components/tuya_ble_mesh/lib/tuya_ble_mesh/sig_mesh_device_commands.py:124-160 | one send attempt, write, failed write or store event under the rules keeps the numbers of waiting and sent PDUs and of encrypted messages issued and all different; a retry draws a new number |
| SendHistory.NoNonceIsUsedTwice | custom_components/tuya_ble_mesh/lib/tuya_ble_mesh/sig_mesh_device.py:567-605 | no two PDUs sent in a run that follows the rules share a network nonce, over any senders, retries, failed writes and crashes, and none carries a number an entry had used before |
| SendHistory.NoMessageNonceIsUsedTwice | custom_components/tuya_ble_mesh/lib/tuya_ble_mesh/sig_mesh_protocol.py:265-343 | no two access messages encrypted in such a run, unsegmented or segmented, sent or not, share an application or device nonce |
| SequenceStore.HASequenceStore.AdvanceTo | custom_components/tuya_ble_mesh/ha_sequence.py:49-51 | setting the number only ever raises it |
| SequenceStore.HASequenceStore.Load | custom_components/tuya_ble_mesh/ha_sequence.py:53-78 | the exact number after a load: the largest of the old one, 100 past the network store on the first load only, and 100 past a legacy store not merged yet; with nothing left to merge nothing changes |
| SequenceStore.Device.NextSeq | custom_components/tuya_ble_mesh/lib/tuya_ble_mesh/sig_mesh_device.py:567-582 | hands out the number of the store and advances it by one, as the system model does; refuses, changing nothing, if and only if the counter is past 0xFFFFFF |
| SequenceStore.Device.NextSeqs | custom_components/tuya_ble_mesh/lib/tuya_ble_mesh/sig_mesh_device.py:584-605 | issues the n numbers from the number of the store, as the system model does; refuses, changing nothing, if and only if the range would reach past 0xFFFFFF |
| Slip.SlipEncode | scripts/sniff.py:68-79 | the encoding loop writes the escaped bytes between two END bytes |
| Slip.SlipDecode | scripts/sniff.py:82-100 | the index loop equals the recursive decoder on all input, a dangling escape included |
| Slip.DecodeUndoesEncode | scripts/sniff.py:68-100 | decoding undoes encoding |
| Slip.EncodeLayout | scripts/sniff.py:68-79 | 0xC0 is written as 0xDB 0xDC and 0xDB as 0xDB 0xDD, every other byte as itself, between two 0xC0 |
| Slip.DecodeLayout | scripts/sniff.py:82-100 | how each byte, each escape, an unknown escape and a dangling one are read |
| Slip.TakeFrames | scripts/sniff.py:265-274 | the inner loop takes out every complete non-empty frame and keeps the rest |
| Slip.ReadPackets | scripts/sniff.py:251-274 | the packets and the leftover depend only on the bytes received, not on how reads cut them; the leftover holds no END |
| Slip.FrameLayout | scripts/sniff.py:263-274 | a stream is cut at every 0xC0, empty pieces are skipped, and what follows the last one is kept |
| Slip.CutAnywhere | scripts/sniff.py:263-274 | cutting a stream anywhere changes neither the packets nor what is carried on |
| Slip.CuttingIsInvisible | scripts/sniff.py:68-274 | however the encodings of a packet list are cut, exactly the non-empty packets come out, in order, with nothing left over |
| Cmac.ShiftLeft | custom_components/tuya_ble_mesh/lib/tuya_ble_mesh/sig_mesh_crypto.py:74-80 | the in-place loop shifts the block with carries between bytes |
| Cmac.ShiftLeftDoubles | custom_components/tuya_ble_mesh/lib/tuya_ble_mesh/sig_mesh_crypto.py:74-80 | on big-endian numbers the shift doubles modulo 2^128 |
| Cmac.SubKey | custom_components/tuya_ble_mesh/lib/tuya_ble_mesh/sig_mesh_crypto.py:99-105 | testing the top bit reduces by Rb exactly when doubling loses a bit (section 2.3 of RFC 4493) |
| Cmac.AesCmac | custom_components/tuya_ble_mesh/lib/tuya_ble_mesh/sig_mesh_crypto.py:83-123 | the loop equals the recursive definition of section 2.4 of RFC 4493 for every message length; the next rows say what that is |
| Cmac.DoubleIsDoubled | custom_components/tuya_ble_mesh/lib/tuya_ble_mesh/sig_mesh_crypto.py:99-105 | the sub-key step is twice the number, reduced by 0x87 when it passes 2^128, and nothing else is |
| Cmac.MacOfOneBlock | custom_components/tuya_ble_mesh/lib/tuya_ble_mesh/sig_mesh_crypto.py:83-123 | for every cipher: a full block is masked with K1, a shorter one padded with 0x80 and zeros and masked with K2, where K1 and K2 are given by their numbers |
| Cmac.MacFoldsFirstBlock | custom_components/tuya_ble_mesh/lib/tuya_ble_mesh/sig_mesh_crypto.py:119-123 | for every cipher: the MAC of a longer message is that of the message whose first block is encrypted and combined with the second |
| Cmac.MacOfPartialTail | custom_components/tuya_ble_mesh/lib/tuya_ble_mesh/sig_mesh_crypto.py:113-123 | the same where the second block is a padded tail |
| Cmac.SubKeysShow | custom_components/tuya_ble_mesh/lib/tuya_ble_mesh/sig_mesh_crypto.py:97-117 | through a cipher that maps zero to a small number and changes nothing else, the masks seen are its double and its fourfold |
| Cmac.PaddingIsKeptApartExactlyWhen | custom_components/tuya_ble_mesh/lib/tuya_ble_mesh/sig_mesh_crypto.py:103-117 | for an injective cipher every message of less than a block has another MAC than its padded form if and only if zero is not mapped to zero |
| Cmac.OneChangedBlockShows | custom_components/tuya_ble_mesh/lib/tuya_ble_mesh/sig_mesh_crypto.py:107-123 | for an injective cipher a change within one block, wherever it is, changes the MAC |
| TelinkCrypto.CryptPayload | custom_components/tuya_ble_mesh/lib/tuya_ble_mesh/crypto.py:189-233 | the block loop equals bytewise counter mode up to 4096 bytes and raises beyond |
| TelinkCrypto.TelinkAesLayout | custom_components/tuya_ble_mesh/lib/tuya_ble_mesh/crypto.py:60-84 | key, text and result are turned round; a short text is filled up with zeros |
| TelinkCrypto.CryptLayout | custom_components/tuya_ble_mesh/lib/tuya_ble_mesh/crypto.py:221-233 | byte i of the result is byte i of the text combined with its byte of the encrypted counter block: the block number in one byte, the nonce, zeros |
| TelinkCrypto.CryptTwice | custom_components/tuya_ble_mesh/lib/tuya_ble_mesh/crypto.py:189-233 | encrypting twice gives back the payload |
| TelinkCrypto.CryptOfPrefix | custom_components/tuya_ble_mesh/lib/tuya_ble_mesh/crypto.py:226-233 | encryption commutes with taking prefixes |
| TelinkCrypto.CounterBlocksRepeatAfter256 | custom_components/tuya_ble_mesh/lib/tuya_ble_mesh/crypto.py:192-217 | counter blocks coincide if and only if their numbers agree modulo 256, so the 256-block limit keeps them distinct |
| TelinkCrypto.MakeChecksum | custom_components/tuya_ble_mesh/lib/tuya_ble_mesh/crypto.py:239-263 | the loop equals the recursive CBC-MAC; a payload of 256 bytes or more raises |
| TelinkCrypto.ChecksumIsLastOfChain | custom_components/tuya_ble_mesh/lib/tuya_ble_mesh/crypto.py:252-263 | the checksum is the last of the chaining values: the first from nonce and length, each further one from the one before combined with the next block |
| TelinkCrypto.NonceShowsInChecksum | custom_components/tuya_ble_mesh/lib/tuya_ble_mesh/crypto.py:252-263 | for an injective cipher the same payload has different checksums under different nonces |
| TelinkCrypto.OneChangedBlockShows | custom_components/tuya_ble_mesh/lib/tuya_ble_mesh/crypto.py:256-263 | for an injective cipher a change within one block of the payload, wherever it is, changes the checksum |
| TelinkPacket.DecodeUndoesEncode | custom_components/tuya_ble_mesh/lib/tuya_ble_mesh/protocol.py:141-264 | every packet that can be encoded verifies and decodes to its command, parameters without trailing zeros |
| TelinkPacket.EncodeUndoesDecode | custom_components/tuya_ble_mesh/lib/tuya_ble_mesh/protocol.py:181-264 | encoding what was decoded gives back the packet byte for byte |
| TelinkPacket.PacketLayout | custom_components/tuya_ble_mesh/lib/tuya_ble_mesh/protocol.py:103-217 | every byte of a packet: sequence number low byte first, two bytes of the checksum, the encrypted payload; and the nonce of turned address, one and sequence number |
| TelinkPacket.EncodeRaisesExactlyWhen | custom_components/tuya_ble_mesh/lib/tuya_ble_mesh/protocol.py:122-174 | which commands are refused, and with which exception |
| TelinkPacket.DecodeAcceptsExactlyEncodings | custom_components/tuya_ble_mesh/lib/tuya_ble_mesh/protocol.py:220-264 | data is accepted if and only if it is the encoding of some command; any other data raises by its length, the address, or as not authentic |
| TelinkPacket.NoncesDiffer | custom_components/tuya_ble_mesh/lib/tuya_ble_mesh/protocol.py:103-135 | for one MAC address, nonces of different sequence numbers differ |
| DataPoints.EncodeDpsCommand | custom_components/tuya_ble_mesh/lib/tuya_ble_mesh/protocol.py:545-557 | the loop writes the data points in ascending order of id and raises on the first that cannot be encoded |
| DataPoints.DecodeDpsResponse | custom_components/tuya_ble_mesh/lib/tuya_ble_mesh/protocol.py:560-592 | the offset loop equals the recursive decoder, errors included |
| DataPoints.DictionaryRoundTrip | custom_components/tuya_ble_mesh/lib/tuya_ble_mesh/protocol.py:447-592 | a dictionary can be encoded if and only if each of its data points can, and then decodes to itself |
| DataPoints.DpLayout | custom_components/tuya_ble_mesh/lib/tuya_ble_mesh/protocol.py:447-492 | every byte of an encoded data point by the type of its value, and what is refused |
| DataPoints.DecodedLayout | custom_components/tuya_ble_mesh/lib/tuya_ble_mesh/protocol.py:495-542 | what each type byte makes of the value bytes, enumerations and unknown types included |
| DataPoints.GreatestIsLast | custom_components/tuya_ble_mesh/lib/tuya_ble_mesh/protocol.py:545-557 | adding the greatest id appends its data point to the encoding, or its failure |
| DataPoints.OneMoreDataPoint | custom_components/tuya_ble_mesh/lib/tuya_ble_mesh/protocol.py:560-592 | one more data point adds or replaces its id; one that is cut off or does not fit its type makes the response malformed |
| DataPoints.ParseDpBytes | custom_components/tuya_ble_mesh/lib/tuya_ble_mesh/sig_mesh_protocol_codec.py:341-363 | the offset loop equals the recursive parser on all input |
| DataPoints.ParseKeepsLongestPrefix | custom_components/tuya_ble_mesh/lib/tuya_ble_mesh/sig_mesh_protocol_codec.py:341-363 | of any bytes the parsed points re-encode to a prefix, and the rest is incomplete |
| DataPoints.ParseUndoesEncode | custom_components/tuya_ble_mesh/lib/tuya_ble_mesh/sig_mesh_protocol_codec.py:341-363 | any list of compact points followed by an incomplete one parses to the list |
| DataPoints.CompactDpRoundTrip | custom_components/tuya_ble_mesh/lib/tuya_ble_mesh/protocol.py:602-640 | what the compact encoder writes the parser reads back, value included |
| DataPoints.CompactLayout | custom_components/tuya_ble_mesh/lib/tuya_ble_mesh/sig_mesh_protocol_codec.py:341-363 | id, type and length in one byte each, then the value; anything cut short is dropped |
| DataPoints.CompactDpLayout | custom_components/tuya_ble_mesh/lib/tuya_ble_mesh/protocol.py:602-640 | every byte the compact encoder writes, and what it refuses |
| ProxySar.MakeProxyPdus | scripts/pb_gatt_provision.py:72-99 | the cutting loop gives one complete PDU, or a first, continuations and a last |
| ProxySar.Provisioner.OnNotify | scripts/pb_gatt_provision.py:150-173 | one received PDU changes the three receive fields as the SAR type says |
| ProxySar.PayloadArrivesWithLastPdu | scripts/pb_gatt_provision.py:72-173 | from any earlier state the flag goes up with the last PDU and none before, and the buffer then is the payload |
| ProxySar.PdusFit | scripts/pb_gatt_provision.py:72-99 | every PDU has 1 to 20 bytes |
| ProxySar.PduLayout | scripts/pb_gatt_provision.py:61-99 | every PDU: segmentation type 0 alone, else 1, then 2, and 3 for the last; PDU type; its 19 bytes of the payload |
| ProxySar.NotifyLayout | scripts/pb_gatt_provision.py:150-173 | what each segmentation type does in any state of the receiver |
| Composition.AcceptsExactlyEncodings | custom_components/tuya_ble_mesh/config_flow_sig.py:61-76 | a byte string is accepted if and only if it encodes a list of elements, and then that list is read |
| Composition.ElementLayout | custom_components/tuya_ble_mesh/config_flow_sig.py:61-76 | every byte of an element: location, the two counts, SIG models with the low byte first, vendor models |
| Composition.AddModels | custom_components/tuya_ble_mesh/config_flow_sig.py:73-80 | one element adds exactly its unknown models at its address and changes no known one |
| Composition.SigModelElements | custom_components/tuya_ble_mesh/config_flow_sig.py:61-83 | raises exactly on the rest; otherwise each SIG model maps to the primary address plus the index of the first element listing it |
| Correlation.CorrelationEngine.Register | custom_components/tuya_ble_mesh/lib/tuya_ble_mesh/transport/correlation.py:38-77 | refuses exactly a request id that is pending, otherwise appends the entry and indexes it |
| Correlation.CorrelationEngine.MatchResponse | custom_components/tuya_ble_mesh/lib/tuya_ble_mesh/transport/correlation.py:79-120 | takes out the earliest registered request with that opcode, source and sequence; none only if there is none |
| Correlation.CorrelationEngine.Cancel | custom_components/tuya_ble_mesh/lib/tuya_ble_mesh/transport/correlation.py:122-139 | takes out exactly the request with the id, and reports whether there was one |
| Correlation.CorrelationEngine.ExpireStale | custom_components/tuya_ble_mesh/lib/tuya_ble_mesh/transport/correlation.py:141-159 | takes out exactly the requests past their deadline, in order, and keeps the others in order |
| Correlation.CorrelationEngine.Clear | custom_components/tuya_ble_mesh/lib/tuya_ble_mesh/transport/correlation.py:165-171 | empties both maps and accounts for every entry |
| Correlation.LookupsAgree | custom_components/tuya_ble_mesh/lib/tuya_ble_mesh/transport/correlation.py:33-36 | the two maps are inverse to each other and equally large in every valid state |
| Correlation.FoundByExactlyThatResponse | custom_components/tuya_ble_mesh/lib/tuya_ble_mesh/transport/correlation.py:60-100 | a registered request is found by a response from its target, under its sequence number, with the opcode it expects, or its own when it expects none or 0, and by no other |
| Correlation.ExpirySplitsByDeadline | custom_components/tuya_ble_mesh/lib/tuya_ble_mesh/transport/correlation.py:147-154 | expired and kept entries are exactly the two sides of the deadline, and together all entries |
| Dispatcher.CommandDispatcher.Start | custom_components/tuya_ble_mesh/lib/tuya_ble_mesh/device_dispatcher.py:86-93 | starting keeps what was queued while stopped |
| Dispatcher.CommandDispatcher.Enqueue | custom_components/tuya_ble_mesh/lib/tuya_ble_mesh/device_dispatcher.py:125-141 | accepts exactly while the queue is below its limit, at the end |
| Dispatcher.CommandDispatcher.Take | custom_components/tuya_ble_mesh/lib/tuya_ble_mesh/device_dispatcher.py:143-164 | the worker takes the oldest command and drops it exactly when it is past its time to live |
| Dispatcher.CommandDispatcher.Send | custom_components/tuya_ble_mesh/lib/tuya_ble_mesh/device_dispatcher.py:182-198 | the command in hand is attempted once and is gone |
| Dispatcher.CommandDispatcher.Stop | custom_components/tuya_ble_mesh/lib/tuya_ble_mesh/device_dispatcher.py:107-123 | a running dispatcher discards the command in hand and the queue; a stopped one keeps its queue |
| Dispatcher.NothingLostNothingTwice | custom_components/tuya_ble_mesh/lib/tuya_ble_mesh/device_dispatcher.py:86-206 | accepted = attempted + expired + discarded + in hand + queued, and the attempted commands are an in-order subsequence of the accepted ones |
| Storm.StormDetector.Record | custom_components/tuya_ble_mesh/connection_manager.py:94 | an attempt is appended to history and deque, and of more than 50 in the deque the oldest is dropped, whatever the clock does |
| Storm.StormDetector.Check | custom_components/tuya_ble_mesh/connection_manager.py:529-535 | exactly the entries before the first recent one are dropped and the answer compares the rest with the threshold; while the wall clock never went back the rest counts the attempts of the full history in the last 300 seconds, capped at 50 |
| Storm.BoundIsHarmlessExactlyUpTo50 | custom_components/tuya_ble_mesh/connection_manager.py:94-151 | the cap changes no answer if and only if the threshold is at most 50 |

## Left out

- Delivery.DeliveredWhenLastMissingArrives: assumes that no segment before the last is swept more than ten seconds after the first own one, so that the buffer does not go stale, and that no other message uses the same buffer key; Delivery.RunCollects covers every timing.
- Delivery.DeliversExactlyWhen: messages longer than 384 bytes with MIC are outside its hypotheses; their headers are wrong by LowerTransport.HeadersAreRightUpTo32.
- Storm.StormDetector.Check: once the wall clock has gone back, which `time.time()` allows, only the pruning and the comparison are stated, not the count, because a time stamp dropped earlier may be recent again.
- AES, AES-CCM and UTF-8 internals, the length limit of AES-CCM, and text with lone surrogates, which cannot be encoded.
- Data point ids are natural numbers; a negative id is refused by the same range test as 0.
- The fallback store of one device (`InMemorySeqStore`), whose number can be lowered by `set_seq`, and the lookup of the shared store by network.
- When a save is triggered: `_maybe_persist_seq` counts status notifications, not sent commands, so the model lets saves happen at any time and states the crash condition instead.
- Registration and removal of waiting callers in `_pending_responses`, retries and back-off of sends, timeouts of waiting callers.
- A disconnect between decryption and the completion of a message, which drops the keys.
- Exceptions raised by callbacks, and the fields of Composition Data and vendor frames given to them.
- Cancellation of asyncio tasks other than by the dispatcher's stop; the dispatcher's pause after an unexpected error.
- Key derivation k1 to k4, pairing, provisioning exchange, notification decryption and status parsing of Telink devices.
- Home Assistant flows, entities, services, diagnostics, scanning, bridges and logging.
