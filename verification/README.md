# LWE offload verification

A Dafny model of the hard parts of the LWE offload stack, with proofs. Words and bytes are
integers in their range, and every place where the code wraps is written out (`Wrap`, `Wrap32`,
`% 0x1_0000_0000`). `dafny verify dfyconfig.toml` checks everything; so does
`dafny verify --resource-limit 2000000 --verification-time-limit 0 *.dfy`.

- **Encryption and decryption operators.** `LweEncrypt` and `LweDecrypt` are the two stream
  machines, written as methods over an output stream and proved equal to specification functions
  of context and input. `BitReversal`, `NativeLayout`, `Radix`, `MaskGenerator`, `Stream` and
  `Context` hold the parts they share with the hosts: the slot layout, the radix arithmetic, the
  xorshift generator, the packers, the context pages. `StreamInversion` proves that decryption
  undoes encryption; `EncryptionLaws` says what the emitted ciphertexts are (masks of their own,
  phases under the key) and `Framing` which configurations are accepted and how streams end.
- **Hosts.** `HostReference` and `HostVerifier` are the natural-order decoders; the FPGA is proved
  to refine them on every buffer. `Dump` and `DumpRoundTrip` cover the LWEHLS01 file from writer
  to repacked buffer. `Storage` covers the SSD ranges and the final store of the full pipeline,
  `SlmReader` the concurrent chunked reader, and `SlmRetries` when it reads a request again.
- **Driver parts.** `DmaQueue` specifies the MCDMA ring as a queue of descriptors and proves
  safety over all runs; `DmaRing` is the ring itself, as a class that refines the queue. `IoPool`
  does the same for the pool of IO objects. `Prp` builds NVMe PRP entries and proves them against
  section 4.3 of the NVM Express Base Specification 1.4.
- **Remote protocol.** `BatchMetadata`, `RemoteProtocol`, `Bridge`, `RemoteServer`,
  `RemoteSession` and `RemoteCalls` cover the LWERPC01 frames, the native import and export, whole
  sessions between the C++ client and the Rust server, and the calls the hosts make. The HPU is a
  parameter of the server.

Inputs from outside are parameters: the packets that arrive, the answers of devices, the words the
HPU returns, durations, the text of an error, and what counts as valid UTF-8.

Bounds the models state: the finish packet of an operator arrives within the first 2^32 - 1
packets, so the packet sequence is shorter than 2^32; `usize` and `size_t` are 64 bits wide; a
request on the DMA ring has at least one segment, every segment is shorter than 2^26, its
descriptors fit the ring, and its IO object is not in use (the driver tests for a full ring only
once per submission, and the segmented send never does).

Where code and comments differ the code is followed. Three properties hold only under a condition,
which is stated as an equivalence. Result 0 of the chunked reader says nothing when no worker
starts (`SlmReader.NoWorkerReadsNothing`, `SlmReader.WorkersRun`); the encryption host never gets
there, because it accepts queue depths 1, 2 and 4 only
(vscode-lwe-encrypt-offload.cpp:235-243) and keeps its output below 2^31 bytes. The pool's reset
rebuilds its list exactly for element sizes below 2^16 or at most one element
(`IoPool.SimplePool.Reset`). The fields of a PRP entry can be read back exactly if each fits
(`Prp.EntryIsReadBack`); a command identifier that needs an eleventh bit is taken for one of the
next queue (`Prp.WideCommandsCollide`). Whether the block layer ever issues such identifiers is not
established here: it depends on the queue size that the controller reports.

## Model

| member | source | states |
|---|---|---|
| `StreamInversion.DecryptionInvertsEncryption` | overlays/suda/device/operators/hls/lwe_encrypt/lwe_encrypt.cpp:171-480 | for every binary key packed by the host context builders, every seed and nonce, internal or zero noise, and every batch under any packetisation, `lwe_decrypt`'s output on `lwe_encrypt`'s native output is exactly those bytes, packed, and then the finish packet |
| `StreamInversion.EncryptAndDecrypt` | overlays/suda/device/operators/hls/lwe_decrypt/lwe_decrypt.cpp:120-241 | the same law for the two operator machines run one after the other on contexts built by the two host builders |
| `StreamInversion.CiphertextDecodes` | overlays/suda/device/operators/hls/lwe_encrypt/lwe_encrypt.cpp:187-221 | the native form of a ciphertext of a block decodes to that block under the same key, in the decoder's own summation order |
| `StreamInversion.PayloadDecrypts` | overlays/suda/device/operators/hls/lwe_decrypt/lwe_decrypt.cpp:172-240 | a stream that is the payload of a batch and a finish packet yields the packed bytes and that finish packet |
| `StreamInversion.HostContextIsAccepted` | overlays/suda/host/applications/vscode-lwe-encrypt-offload/vscode-lwe-encrypt-offload.cpp:369-397 | an encryption page built by the host passes every configuration check of `lwe_encrypt` and gives it the key, seed, nonce and noise mode |
| `StreamInversion.HostPageIsAccepted` | overlays/suda/host/applications/vscode-lwe-encrypt-offload/vscode-lwe-encrypt-offload.cpp:369-397 | the same for either output layout, with mask dimension 2048, the byte count, noise mode, layout, generator and every key bit as the page was built |
| `EncryptionLaws.EncryptedBatch` | overlays/suda/device/operators/hls/lwe_encrypt/lwe_encrypt.cpp:303-480 | for every host page, either layout, every key, seed, nonce, noise mode and packetisation: no two ciphertexts in the emitted packets share a mask word at one position, and ciphertext 4 i + k has the phase (bits 2k and 2k + 1 of byte i) times 2^59 plus exactly the signed remainder modulo 2^17 of its own draw 2049, or plus nothing without noise |
| `EncryptionLaws.BlocksHaveTheirOwnMasks` | overlays/suda/device/operators/hls/lwe_encrypt/lwe_encrypt.cpp:324-325 | two different blocks of a batch of up to 2^30 bytes differ in every one of their 2048 mask words |
| `EncryptionLaws.SingleBatch` | overlays/suda/device/operators/hls/lwe_encrypt/lwe_encrypt.cpp:268-301 | in the modes with one ciphertext per packet, for any mask dimension: ciphertext i of the emitted packets has the phase lane 0 of packet i, times delta in clear mode, plus exactly the noise asked for (lane 1, the signed low bits of the draw behind the mask, or none), and no two share a mask word at one position |
| `EncryptionLaws.NoiseIsExact` | overlays/suda/device/operators/hls/lwe_encrypt/lwe_encrypt.cpp:256-261 | noise mode 0 adds the signed remainder of the draw behind the mask, mode 1 the input word, any other mode nothing |
| `EncryptionLaws.PhaseOfCiphertext` | overlays/suda/device/operators/hls/lwe_encrypt/lwe_encrypt.cpp:234-265 | body minus keyed mask sum is the encoded message plus the noise, for any mask dimension |
| `EncryptionLaws.ParameterOffsets` | overlays/suda/device/operators/hls/lwe_encrypt/lwe_encrypt.cpp:360-375 | where each parameter stands in the context, and what the u8 radix mode overrides |
| `StreamInversion.DecryptContextIsAccepted` | overlays/suda/host/applications/vscode-lwe-decrypt-offload/vscode-lwe-decrypt-offload.cpp:612-632 | a decryption page built by the host passes every configuration check of `lwe_decrypt` and gives it the key in natural order |
| `HostReference.FpgaRefinesHost` | overlays/suda/device/operators/hls/lwe_decrypt/lwe_decrypt.cpp:110-240 | on every buffer, valid ciphertext or not, the FPGA's permuted streaming dot product with 65-bit rounding gives the bytes of the host's natural-order 64-bit reference |
| `HostReference.FpgaBlockIsHostBlock` | overlays/suda/device/operators/hls/lwe_decrypt/lwe_decrypt.cpp:193-221 | the same for one ciphertext and any key |
| `HostReference.ComputePhase` | overlays/suda/host/applications/vscode-lwe-decrypt-offload/vscode-lwe-decrypt-offload.cpp:546-570 | the mask loop and body read give body minus natural-order dot product modulo 2^64, and the logical mask |
| `HostReference.DecodeOnHost` | overlays/suda/host/applications/vscode-lwe-decrypt-offload/vscode-lwe-decrypt-offload.cpp:534-574 | the reference loop returns, byte by byte, the bytes assembled from the nearest blocks |
| `HostReference.DecodeOnBoth` | overlays/suda/device/operators/hls/lwe_decrypt/lwe_decrypt.cpp:120-241 | the operators themselves: fed with any buffer and configured by the host's context builder, `lwe_decrypt` emits what the host's reference decoder finds, packed, and then the finish packet |
| `BitReversal.RevIsInvolution` | overlays/tfhe-rs/tfhe/examples/hpu/lwe_encrypt_cpu_bench.rs:311-319 | bit reversal of any width k is its own inverse on values below 2^k |
| `BitReversal.RevBits` | overlays/suda/device/operators/hls/lwe_encrypt/lwe_encrypt.cpp:127-137 | bit i of the reversal is bit k - 1 - i of the argument, for any width k |
| `BitReversal.ReverseByBitStores` | overlays/suda/device/operators/hls/lwe_encrypt/lwe_encrypt.cpp:127-137 | the HLS loop of single-bit stores computes the reversal |
| `BitReversal.ReverseByShiftedReads` | overlays/suda/host/applications/vscode-lwe-encrypt-offload/vscode-lwe-encrypt-offload.cpp:754-761 | the C++ host loop computes the same reversal |
| `BitReversal.ReverseByConsuming` | overlays/tfhe-rs/tfhe/examples/hpu/lwe_encrypt_cpu_bench.rs:311-319 | the Rust loop computes the same reversal |
| `NativeLayout.MaskPositionIsBijective` | overlays/suda/device/operators/hls/lwe_encrypt/lwe_encrypt.cpp:200-210 | the index map is a bijection onto the mask area: injective, and it never hits body slot or padding |
| `NativeLayout.PlaceBits` | overlays/suda/device/operators/hls/lwe_encrypt/lwe_encrypt.cpp:200-210 | the layout bit by bit: bit 6 of the natural index selects the slot, bits 10 to 7 reversed are the low bits of the offset and bits 5 to 0 reversed its high bits |
| `NativeLayout.NativeForm` | overlays/suda/device/operators/hls/lwe_encrypt/lwe_encrypt.cpp:139-169 | in the native form every mask word stands where its bits say, the body is word 1024, and words 1025 to 1535 and 2560 to 3071 are zero |
| `NativeLayout.PlaceInvertsNaturalIndex` | overlays/suda/device/operators/hls/lwe_decrypt/lwe_decrypt.cpp:30-40 | the decoder's offset-to-index map, then the encoder's scatter, is the identity |
| `NativeLayout.NaturalIndexInvertsPlace` | overlays/suda/device/operators/hls/lwe_decrypt/lwe_decrypt.cpp:30-40 | the encoder's scatter, then the decoder's map, is the identity |
| `NativeLayout.LogicalOfNative` | overlays/suda/host/applications/vscode-lwe-encrypt-offload/vscode-lwe-encrypt-offload.cpp:797-832 | extracting a packed ciphertext gives back the logical words, and its padding is zero |
| `NativeLayout.NativeOfLogical` | overlays/suda/host/applications/vscode-lwe-encrypt-offload/vscode-lwe-encrypt-offload.cpp:797-832 | a native form is the packing of its extraction exactly if all its padding is zero |
| `NativeLayout.StreamOrderDoesNotMatter` | overlays/suda/device/operators/hls/lwe_decrypt/lwe_decrypt.cpp:196-207 | the dot product in stream order equals the one in natural order, for any key and any native words |
| `NativeLayout.ComputePlace` | overlays/tfhe-rs/tfhe/examples/hpu/lwe_encrypt_cpu_bench.rs:330-335 | the Rust index arithmetic gives the place of the one layout specification |
| `NativeLayout.ComputeHostPlace` | overlays/suda/host/applications/vscode-lwe-decrypt-offload/vscode-lwe-decrypt-offload.cpp:413-418 | the C++ index arithmetic gives the same place |
| `NativeLayout.PackNative` | overlays/tfhe-rs/tfhe/examples/hpu/lwe_encrypt_cpu_bench.rs:321-338 | the Rust packer, working in place, produces the specified native form |
| `NativeLayout.CheckPadding` | overlays/suda/host/applications/vscode-lwe-encrypt-offload/vscode-lwe-encrypt-offload.cpp:823-832 | the padding scan accepts exactly zero padding |
| `NativeLayout.VerifyNative` | overlays/tfhe-rs/tfhe/examples/hpu/lwe_encrypt_cpu_bench.rs:389-415 | the Rust verifier accepts exactly the packing of the logical words |
| `Radix.RoundingWidthDoesNotMatter` | overlays/suda/device/operators/hls/lwe_decrypt/lwe_decrypt.cpp:110-118 | 65-bit rounding and 64-bit wrapping rounding decode every body and dot product alike |
| `Radix.DecodeIsExact` | overlays/suda/host/applications/vscode-lwe-encrypt-offload/vscode-lwe-encrypt-offload.cpp:834-838 | decoding a block with error e is correct exactly if e lies in [-2^58, 2^58) modulo 2^61 |
| `Radix.LargeErrorsAreNotTolerated` | overlays/suda/host/applications/vscode-lwe-encrypt-offload/vscode-lwe-encrypt-offload.cpp:834-838 | an error outside that interval, below 2^60, misreads the block |
| `Radix.AssembleInvertsBlockOf` | overlays/suda/device/operators/hls/lwe_decrypt/lwe_decrypt.cpp:221-237 | the four blocks of a byte, or-ed at their shifts, give the byte |
| `Radix.AssembleIsInjective` | overlays/suda/host/applications/vscode-lwe-encrypt-offload/vscode-lwe-encrypt-offload.cpp:846-861 | four blocks assemble to a byte exactly if each is that byte's block |
| `MaskGenerator.XorShiftIsBijective` | overlays/suda/device/operators/hls/lwe_encrypt/lwe_encrypt.cpp:3-13 | the xorshift step is a bijection of the 64-bit words and fixes 0 |
| `MaskGenerator.DrawsAreNotZero` | overlays/suda/device/operators/hls/lwe_encrypt/lwe_encrypt.cpp:3-13 | from any state no draw is 0, so the zero guard fires on the first draw at most |
| `MaskGenerator.MaskWordsAreNotZero` | overlays/suda/device/operators/hls/lwe_encrypt/lwe_encrypt.cpp:187-195 | no mask word of any ciphertext is 0 |
| `MaskGenerator.MasksDiffer` | overlays/suda/device/operators/hls/lwe_encrypt/lwe_encrypt.cpp:187-195 | within a run, two different ciphertext indices never share a mask word at the same position, even when one initial state is 0 |
| `MaskGenerator.SuccessorOfOne` | overlays/suda/device/operators/hls/lwe_encrypt/lwe_encrypt.cpp:3-13 | the step takes state 1 to the word with exactly bits 0, 6, 13, 17, 23 and 30, which the shifts 13, 7 and 17 alone give |
| `MaskGenerator.SeedOfCiphertext` | overlays/suda/device/operators/hls/lwe_encrypt/lwe_encrypt.cpp:236-236 | a ciphertext starts from the exclusive or of seed, nonce and its index plus one |
| `MaskGenerator.ZeroGuard` | overlays/suda/device/operators/hls/lwe_encrypt/lwe_encrypt.cpp:3-13 | state 0 goes on as the golden-ratio constant does |
| `Stream.WordPacker.WriteWord` | overlays/suda/device/operators/hls/lwe_encrypt/lwe_encrypt.cpp:110-125 | the beats written plus the open packet are the packing of all words so far |
| `Stream.WordPacker.WriteLastWord` | overlays/suda/device/operators/hls/lwe_encrypt/lwe_encrypt.cpp:265-265 | a forced flush leaves exactly the beats of the words, zero padded |
| `Stream.BytePacker.WriteByte` | overlays/suda/device/operators/hls/lwe_decrypt/lwe_decrypt.cpp:89-102 | the beats written plus the open packet are the packing of all bytes so far |
| `Stream.BytePacker.Flush` | overlays/suda/device/operators/hls/lwe_decrypt/lwe_decrypt.cpp:58-87 | flushing completes the packed bytes with the keep bits of the rest |
| `Stream.ByteBeatsCarryBytes` | overlays/suda/device/operators/hls/lwe_decrypt/lwe_decrypt.cpp:58-102 | the keep-valid lanes of the packed beats are exactly the bytes, in order |
| `Stream.BeatLane` | overlays/suda/device/operators/hls/lwe_encrypt/lwe_encrypt.cpp:110-125 | lane l of beat q holds word 8 q + l |
| `Stream.BeatsLane` | overlays/suda/device/operators/hls/lwe_encrypt/lwe_encrypt.cpp:110-125 | the same for a sequence whose last beat is not full |
| `Context.PackKey` | overlays/suda/host/applications/vscode-lwe-encrypt-offload/vscode-lwe-encrypt-offload.cpp:392-396 | the packing loop stores every key coefficient at its bit and keeps the rest zero |
| `Context.OperatorReadsPackedKey` | overlays/suda/device/operators/hls/lwe_encrypt/lwe_encrypt.cpp:33-42 | the operator's key bit of a page that holds a key is the key's coefficient |
| `Context.BuildEncryptContext` | overlays/suda/host/applications/vscode-lwe-encrypt-offload/vscode-lwe-encrypt-offload.cpp:369-397 | the built page holds the key and the encryption fields at their offsets, and zeros elsewhere |
| `Context.BuildDecryptContext` | overlays/suda/host/applications/vscode-lwe-decrypt-offload/vscode-lwe-decrypt-offload.cpp:612-632 | the built page holds the key and the decryption fields at their offsets, and zeros elsewhere |
| `LweEncrypt.Encrypt` | overlays/suda/device/operators/hls/lwe_encrypt/lwe_encrypt.cpp:353-480 | for every context and input, including every rejected configuration, the output stream is the specified one |
| `LweEncrypt.EncryptStream` | overlays/suda/device/operators/hls/lwe_encrypt/lwe_encrypt.cpp:406-479 | the stream loop emits the payload of the accepted bytes and the right terminator |
| `LweEncrypt.EncryptUntilEnd` | overlays/suda/device/operators/hls/lwe_encrypt/lwe_encrypt.cpp:408-479 | the loop encrypts every packet before the one that ends the task, and that one too if it ends it by TLAST, and counts what it encrypted |
| `LweEncrypt.EncryptPacket` | overlays/suda/device/operators/hls/lwe_encrypt/lwe_encrypt.cpp:428-458 | one packet's keep-valid lanes are encrypted in order until the count is reached |
| `LweEncrypt.EncryptU8Radix` | overlays/suda/device/operators/hls/lwe_encrypt/lwe_encrypt.cpp:303-351 | one byte becomes the beats of its four block ciphertexts |
| `LweEncrypt.EncryptEncodedNative` | overlays/suda/device/operators/hls/lwe_encrypt/lwe_encrypt.cpp:171-222 | the in-place scatter and slot writer emit the beats of the native form of the ciphertext |
| `LweEncrypt.EncryptEncoded` | overlays/suda/device/operators/hls/lwe_encrypt/lwe_encrypt.cpp:224-266 | the CPU-layout loop emits the beats of the ciphertext for any mask dimension |
| `LweEncrypt.WriteSlot` | overlays/suda/device/operators/hls/lwe_encrypt/lwe_encrypt.cpp:139-169 | one slot: data, optional body, zero padding to 1536 words |
| `MaskGenerator.SampleTuniform` | overlays/suda/device/operators/hls/lwe_encrypt/lwe_encrypt.cpp:15-31 | mask and sign bit of a fresh draw: read in two's complement the noise is the remainder of the draw modulo 2^bound with the draw's sign, strictly between -2^bound and 2^bound; a bound of 0 draws nothing |
| `MaskGenerator.MaskedValue` | overlays/suda/device/operators/hls/lwe_encrypt/lwe_encrypt.cpp:23-28 | and-ing a word bit by bit with 2^n - 1, or with all ones from n = 64 on, gives its remainder modulo 2^n |
| `StreamInversion.NoiseIsSmall` | overlays/suda/device/operators/hls/lwe_encrypt/lwe_encrypt.cpp:213-218 | under the hosts' configuration the noise added to a body lies strictly between -2^17 and 2^17 |
| `LweDecrypt.Decrypt` | overlays/suda/device/operators/hls/lwe_decrypt/lwe_decrypt.cpp:120-241 | for every context and input, including every rejected configuration, the output stream is the specified one |
| `LweDecrypt.DecryptStream` | overlays/suda/device/operators/hls/lwe_decrypt/lwe_decrypt.cpp:162-240 | the nested-counter machine emits the bytes decoded from whole ciphertexts and the right terminator |
| `LweDecrypt.ConsumeData` | overlays/suda/device/operators/hls/lwe_decrypt/lwe_decrypt.cpp:172-240 | the loop stops exactly at the finish packet, at the first packet too many or at the end of what arrived, with all bytes decoded from whole ciphertexts packed |
| `LweDecrypt.CountersAreDigits` | overlays/suda/device/operators/hls/lwe_decrypt/lwe_decrypt.cpp:214-239 | the four counters are the mixed-radix digits of the packets consumed |
| `LweDecrypt.Step` | overlays/suda/device/operators/hls/lwe_decrypt/lwe_decrypt.cpp:193-239 | one data packet keeps the machine at the state that its packet count determines |
| `LweDecrypt.NaturalIndexFromPcOffset` | overlays/suda/device/operators/hls/lwe_decrypt/lwe_decrypt.cpp:30-40 | the hardware index arithmetic is the specified offset-to-index map |
| `LweDecrypt.FinishTask` | overlays/suda/device/operators/hls/lwe_decrypt/lwe_decrypt.cpp:177-186 | a finish packet gives error 5 or flush and forward, as specified for its position |
| `LweDecrypt.RejectPacket` | overlays/suda/device/operators/hls/lwe_decrypt/lwe_decrypt.cpp:188-191 | a data packet after the last byte gives error 6 |
| `Framing.DecryptFraming` | overlays/suda/device/operators/hls/lwe_decrypt/lwe_decrypt.cpp:172-191 | the output is TUSER = 0, TLAST = 0 payload and one terminator: the finish packet exactly after 1536 N packets, or with no count after any multiple of 1536, error 5 for too few, error 6 for too many; on an error the bytes of the last open packet are lost and no others |
| `Framing.EncryptFraming` | overlays/suda/device/operators/hls/lwe_encrypt/lwe_encrypt.cpp:408-479 | in every mode: the items before the end of the task, up to the count, become full TUSER = 0, TLAST = 0 beats, 1536 (CPU layout 1028) for a byte or one word more than the mask for a packet, then one terminator follows: error 4 exactly if fewer than N items came, else the finish packet; without a count TLAST ends the task with a finish packet of zeros |
| `Framing.ErrorLayout` | overlays/suda/device/operators/hls/lwe_decrypt/lwe_decrypt.cpp:42-56 | an error packet carries the operator's tag in lane 0, the code in the next 32 bits and zeros, with TUSER = 0xff, TLAST = 1 and all lanes valid |
| `Framing.ErrorsDiffer` | overlays/suda/device/operators/hls/lwe_encrypt/lwe_encrypt.cpp:68-82 | error packets are equal only if operator tag and code are |
| `Framing.EncryptAccepts` | overlays/suda/device/operators/hls/lwe_encrypt/lwe_encrypt.cpp:362-404 | exactly which configurations `lwe_encrypt` accepts, by context offset |
| `Framing.EncryptRefuses` | overlays/suda/device/operators/hls/lwe_encrypt/lwe_encrypt.cpp:378-404 | a refused configuration yields one error packet whatever the input is, with code 1, 2, 3, 5 or 6 exactly for its first failing check |
| `Framing.DecryptAccepts` | overlays/suda/device/operators/hls/lwe_decrypt/lwe_decrypt.cpp:126-159 | exactly which configurations `lwe_decrypt` accepts, by context offset, zero standing for the default in three fields |
| `Framing.DecryptRefuses` | overlays/suda/device/operators/hls/lwe_decrypt/lwe_decrypt.cpp:144-159 | a refused configuration yields one error packet whatever the input is, with code 1 to 4 exactly for its first failing check |
| `HostVerifier.CheckIsExact` | overlays/suda/host/applications/vscode-lwe-encrypt-offload/vscode-lwe-encrypt-offload.cpp:834-844 | the verifier's signed-difference check means: the phase lies within the bound of one of the four encodings |
| `HostVerifier.VerifyBlock` | overlays/suda/host/applications/vscode-lwe-encrypt-offload/vscode-lwe-encrypt-offload.cpp:797-844 | one block is accepted exactly if its padding is zero and its phase is an encoding, or with noise less than 2^17 away from one |
| `HostVerifier.ExtractAndVerify` | overlays/suda/host/applications/vscode-lwe-encrypt-offload/vscode-lwe-encrypt-offload.cpp:769-865 | a buffer is accepted exactly if it is large enough, every block is accepted and the expected first byte, if given, matches; then the bytes and logical words are returned |
| `HostVerifier.EncryptedBufferIsAccepted` | overlays/suda/host/applications/vscode-lwe-encrypt-offload/vscode-lwe-encrypt-offload.cpp:769-865 | every buffer that `lwe_encrypt` fills is accepted and decodes to the plaintext |
| `Dump.WriteDump` | overlays/suda/host/applications/vscode-lwe-encrypt-offload/vscode-lwe-encrypt-offload.cpp:952-980 | the file is the words of header, clear references and ciphertexts |
| `Dump.DumpLayout` | overlays/suda/host/applications/vscode-lwe-encrypt-offload/vscode-lwe-encrypt-offload.cpp:952-980 | where every field stands in a written file: the bytes LWEHLS01, then 1, 2048, N, 4, 2, 2, 1, 59 and the word count, then the references and the words |
| `Dump.WriterWritesDumps` | overlays/suda/host/applications/vscode-lwe-encrypt-offload/vscode-lwe-encrypt-offload.cpp:952-980 | what the writer writes passes the reader's checks exactly if it fits the reader's limits |
| `Dump.DumpsAreWritten` | overlays/suda/host/applications/vscode-lwe-decrypt-offload/vscode-lwe-decrypt-offload.cpp:349-395 | whatever passes the reader's checks is what the writer writes for the parts returned |
| `Dump.ReadDump` | overlays/suda/host/applications/vscode-lwe-decrypt-offload/vscode-lwe-decrypt-offload.cpp:306-395 | the reader returns parts exactly if the file is the writer's file for them within the limits |
| `Dump.StoreWord` | overlays/suda/host/applications/vscode-lwe-decrypt-offload/vscode-lwe-decrypt-offload.cpp:279-285 | the eight byte stores replace one word of the buffer and no other |
| `Dump.RepackOne` | overlays/suda/host/applications/vscode-lwe-decrypt-offload/vscode-lwe-decrypt-offload.cpp:408-427 | the in-place scatter fills one zeroed slot with the native form and leaves the other slots alone |
| `Dump.Repack` | overlays/suda/host/applications/vscode-lwe-decrypt-offload/vscode-lwe-decrypt-offload.cpp:404-428 | every slot of the rebuilt buffer is the native form of its ciphertext |
| `Dump.ParseDump` | overlays/suda/host/applications/vscode-lwe-decrypt-offload/vscode-lwe-decrypt-offload.cpp:306-432 | exactly the writer's files are accepted; clear references come back and every ciphertext is repacked |
| `DumpRoundTrip.ExtractionInvertsRepacking` | overlays/suda/host/applications/vscode-lwe-encrypt-offload/vscode-lwe-encrypt-offload.cpp:792-832 | extraction from the repacked buffer recovers the logical words |
| `DumpRoundTrip.RepackingRestoresBuffer` | overlays/suda/host/applications/vscode-lwe-decrypt-offload/vscode-lwe-decrypt-offload.cpp:404-428 | repacking the words extracted from a buffer with zero padding rebuilds that buffer byte for byte |
| `DumpRoundTrip.DumpAndReload` | overlays/suda/host/applications/vscode-lwe-encrypt-offload/vscode-lwe-encrypt-offload.cpp:1329-1380 | verify, dump, parse: the decryption host gets the verified buffer and the decrypted bytes as reference |
| `DmaQueue.RunsAreFifo` | overlays/suda/device/platform/software_stack/nf_spdk/dpdk/drivers/bus/axi_dma/rte_axi_dma.c:478-739 | over every interleaving of submissions, hardware completions and single rounds of the poll loop, from creation or a reset, the returned requests are the submitted ones in order, each once |
| `DmaQueue.PollIsReachable` | overlays/suda/device/platform/software_stack/nf_spdk/dpdk/drivers/bus/axi_dma/rte_axi_dma.c:616-739 | a whole poll, with whatever hardware completes between its rounds, is a part of such a run and appends its result to what was returned |
| `DmaQueue.ReachableIsFifo` | overlays/suda/device/platform/software_stack/nf_spdk/dpdk/drivers/bus/axi_dma/rte_axi_dma.c:478-739 | in every reachable state the returned requests are the first submitted ones, in order |
| `DmaQueue.PollKeepsPromise` | overlays/suda/device/platform/software_stack/nf_spdk/dpdk/drivers/bus/axi_dma/rte_axi_dma.c:682-723 | however hardware interferes, a poll returns a request only after all its descriptors completed, with a length equal to the bytes hardware reported for them modulo 2^32, and consumes no uncompleted descriptor |
| `DmaQueue.SubmitInv` | overlays/suda/device/platform/software_stack/nf_spdk/dpdk/drivers/bus/axi_dma/rte_axi_dma.c:478-601 | a submission keeps order, ownership and byte accounting |
| `DmaQueue.CompleteInv` | overlays/suda/device/platform/software_stack/nf_spdk/dpdk/drivers/bus/axi_dma/rte_axi_dma.c:640-675 | a hardware completion keeps them |
| `DmaQueue.PopInv` | overlays/suda/device/platform/software_stack/nf_spdk/dpdk/drivers/bus/axi_dma/rte_axi_dma.c:682-723 | consuming the descriptor at the head keeps them |
| `DmaQueue.EndsBefore` | overlays/suda/device/platform/software_stack/nf_spdk/dpdk/drivers/bus/axi_dma/rte_axi_dma.c:713-723 | the request-end marks before a position count exactly the requests before it |
| `DmaRing.Channel.FullAndEmptyAreExact` | overlays/suda/device/platform/software_stack/nf_spdk/dpdk/drivers/bus/axi_dma/rte_axi_dma.c:452-476 | count and pointers tell a full ring from an empty one |
| `DmaRing.Channel.AddBuffer` | overlays/suda/device/platform/software_stack/nf_spdk/dpdk/drivers/bus/axi_dma/rte_axi_dma.c:478-601 | a plain submission appends its descriptors to the queue, clears stale completion bits and fails exactly on a full ring |
| `DmaRing.Channel.SendSegments` | overlays/suda/device/platform/software_stack/nf_spdk/dpdk/drivers/bus/axi_dma/rte_axi_dma.c:997-1084 | a segmented submission appends its descriptors and, with last data, a 16-byte finish descriptor that ends the request |
| `DmaRing.Channel.HardwareCompletes` | overlays/suda/device/platform/software_stack/nf_spdk/dpdk/drivers/bus/axi_dma/rte_axi_dma.c:640-675 | hardware changes one outstanding descriptor only |
| `DmaRing.Channel.PollComplete` | overlays/suda/device/platform/software_stack/nf_spdk/dpdk/drivers/bus/axi_dma/rte_axi_dma.c:616-739 | the ring's poll, with hardware working between its rounds, refines the queue's poll and keeps its promise |
| `DmaRing.Channel.Enable` | overlays/suda/device/platform/software_stack/nf_spdk/dpdk/drivers/bus/axi_dma/rte_axi_dma.c:811-994 | a drained ring over idle hardware is kept; any other restarts empty as the start of a new run, so no later poll returns a dropped request |
| `DmaRing.Channel.SetLength` | overlays/suda/device/platform/software_stack/nf_spdk/lib/axi_dma/axi_dma.c:242-256 | the IO starts with the sum of its segment lengths modulo 2^32 |
| `DmaRing.TotalLength` | overlays/suda/device/platform/software_stack/nf_spdk/lib/axi_dma/axi_dma.c:246-248 | the accumulation loop computes that sum |
| `IoPool.RunsConserve` | overlays/suda/device/platform/software_stack/nf_spdk/include/spdk/env.h:337-352 | over every disciplined get/put run free and used elements are the same elements without duplicates |
| `IoPool.GetConserves` | overlays/suda/device/platform/software_stack/nf_spdk/include/spdk/env.h:337-346 | get keeps the elements, and returns nothing exactly if all are in use |
| `IoPool.PutConserves` | overlays/suda/device/platform/software_stack/nf_spdk/include/spdk/env.h:348-352 | put keeps the elements |
| `IoPool.CapacityIsConstant` | overlays/suda/device/platform/software_stack/nf_spdk/include/spdk/env.h:327-352 | free plus used elements always number the capacity |
| `IoPool.ResetIsExact` | overlays/suda/device/platform/software_stack/nf_spdk/include/spdk/env.h:391-394 | addresses computed with the size cut to 16 bits are the right ones exactly if the size fits or there is at most one element |
| `IoPool.SimplePool.constructor` | overlays/suda/device/platform/software_stack/nf_spdk/include/spdk/env.h:354-380 | the free list after init, for any positive element size, which is stored cut to 16 bits |
| `IoPool.SimplePool.GetIo` | overlays/suda/device/platform/software_stack/nf_spdk/include/spdk/env.h:337-346 | the ring refines get |
| `IoPool.SimplePool.PutIo` | overlays/suda/device/platform/software_stack/nf_spdk/include/spdk/env.h:348-352 | the ring refines put |
| `IoPool.SimplePool.Reset` | overlays/suda/device/platform/software_stack/nf_spdk/include/spdk/env.h:383-398 | from any reachable state the ring again holds the initial free list, and the pool is usable, exactly if the element size fits 16 bits or there is at most one element |
| `SlmReader.RunInv` | overlays/suda/host/applications/vscode-lwe-encrypt-offload/vscode-lwe-encrypt-offload.cpp:513-599 | in every interleaving every claimed request is held by its one claimer or recorded, filled regions hold the device's bytes, and workers leave only on a failure or when all is claimed |
| `SlmReader.StepInv` | overlays/suda/host/applications/vscode-lwe-encrypt-offload/vscode-lwe-encrypt-offload.cpp:513-585 | every single step keeps that invariant |
| `SlmReader.RegionsAreDisjoint` | overlays/suda/host/applications/vscode-lwe-encrypt-offload/vscode-lwe-encrypt-offload.cpp:520-522 | the requests write to disjoint parts of the output |
| `SlmReader.ClaimedOnce` | overlays/suda/host/applications/vscode-lwe-encrypt-offload/vscode-lwe-encrypt-offload.cpp:515-519 | in no state two workers hold the same request |
| `SlmReader.FetchesDiffer` | overlays/suda/host/applications/vscode-lwe-encrypt-offload/vscode-lwe-encrypt-offload.cpp:515-519 | over a whole run any two fetches, by whichever workers, get different request indices |
| `SlmReader.IndexIsBounded` | overlays/suda/host/applications/vscode-lwe-encrypt-offload/vscode-lwe-encrypt-offload.cpp:515-519 | the shared index overshoots the request count by at most the number of workers |
| `SlmReader.ScanRecords` | overlays/suda/host/applications/vscode-lwe-encrypt-offload/vscode-lwe-encrypt-offload.cpp:601-615 | the result is that of the lowest-index failed request, or 0 if none failed |
| `SlmReader.CompleteRunReadsEverything` | overlays/suda/host/applications/vscode-lwe-encrypt-offload/vscode-lwe-encrypt-offload.cpp:486-615 | if no request failed and a worker ran, the output is the requested memory and every request was read once |
| `SlmReader.ConcludeRead` | overlays/suda/host/applications/vscode-lwe-encrypt-offload/vscode-lwe-encrypt-offload.cpp:486-615 | after any complete run result 0 means that no request failed and, if a worker ran or nothing was asked for, that the output is the requested memory; any other result is that of the failed request with the lowest index |
| `SlmRetries.OnlyInterruptionsAreRetried` | overlays/suda/host/applications/vscode-lwe-encrypt-offload/vscode-lwe-encrypt-offload.cpp:540-553 | over every run a device read is followed by another read of its request only if it failed with errno 4, and then by the same worker; so a success, or a failure with any other errno, is the last read |
| `SlmRetries.InterruptionIsRecordedAfter17Reads` | overlays/suda/host/applications/vscode-lwe-encrypt-offload/vscode-lwe-encrypt-offload.cpp:550-554 | a request recorded as failed with errno 4 was read exactly 17 times by the worker that claimed it, with errno 4 every time |
| `SlmRetries.SuccessIsRecorded` | overlays/suda/host/applications/vscode-lwe-encrypt-offload/vscode-lwe-encrypt-offload.cpp:540-580 | a request whose read succeeds, after however many interruptions, is recorded with result 0 |
| `SlmRetries.ClaimedRequestsAreSettled` | overlays/suda/host/applications/vscode-lwe-encrypt-offload/vscode-lwe-encrypt-offload.cpp:513-599 | when all workers have left, every claimed request is recorded with the outcome of the last of its at most 17 reads |
| `SlmRetries.StopLimitsClaims` | overlays/suda/host/applications/vscode-lwe-encrypt-offload/vscode-lwe-encrypt-offload.cpp:514-516 | once the stop flag is set no worker fetches more than one further index |
| `SlmRetries.FailureRaisesStop` | overlays/suda/host/applications/vscode-lwe-encrypt-offload/vscode-lwe-encrypt-offload.cpp:580-583 | when all workers have left and a request failed, the stop flag is set |
| `SlmRetries.FailedWorkerLeaves` | overlays/suda/host/applications/vscode-lwe-encrypt-offload/vscode-lwe-encrypt-offload.cpp:580-583 | a worker that records a failure sets the flag and does nothing else after that |
| `SlmRetries.FetchClaims` | overlays/suda/host/applications/vscode-lwe-encrypt-offload/vscode-lwe-encrypt-offload.cpp:515-519 | the worker that fetched an index stays the owner of that request |
| `SlmReader.NoWorkerReadsNothing` | overlays/suda/host/applications/vscode-lwe-encrypt-offload/vscode-lwe-encrypt-offload.cpp:501-503 | with queue depth 0, or a request count divisible by 2^32, no worker starts and result 0 leaves the output as it was |
| `SlmReader.WorkersRun` | overlays/suda/host/applications/vscode-lwe-encrypt-offload/vscode-lwe-encrypt-offload.cpp:501-503 | the number of workers is the smaller of the queue depth and the request count modulo 2^32, so one starts exactly if neither is 0 |
| `Prp.SetupPrps` | overlays/suda/host/drivers/nvmq/qdma.c:960-1047 | for page-aligned lists: no bad-list exit, the entry limit is hit exactly if more pages remain than one list holds, and otherwise dptr.prp1 and dptr.prp2, or with fill_lba the start LBA and the reference tag, describe exactly the list's bytes in order, every entry under the prefix and all but the first on a page boundary; the other two fields are unchanged |
| `Prp.FillList` | overlays/suda/host/drivers/nvmq/qdma.c:1003-1028 | the loop fills one entry per page after the first and stops at the limit |
| `Prp.EntryIsReadBack` | overlays/suda/host/drivers/nvmq/qdma.c:948-958 | address, command, queue and function can all be read back from an entry exactly if each fits its field: 48, 10, 3 and 2 bits |
| `Prp.EntryIsFields` | overlays/suda/host/drivers/nvmq/qdma.c:948-958 | a fitting entry is the 48-bit address, ten bits of command, three of queue, two of function and a one, from bit 0 up |
| `Prp.PrefixKeepsAddress` | overlays/suda/host/drivers/nvmq/qdma.c:948-958 | whatever its fields, the prefix leaves a 48-bit address intact |
| `Prp.WideCommandsCollide` | overlays/suda/host/drivers/nvmq/qdma.c:948-958 | for every function and every even queue, command 1024 + c gives the prefix of command c of the next queue |
| `BatchMetadata.CpuWordsAreExact` | overlays/tfhe-rs/tfhe/examples/hpu/lwe_remote/protocol.rs:52-57 | the checked chain gives the product, and fails exactly when the product exceeds 64 bits |
| `BatchMetadata.LayoutsAreDistinct` | overlays/tfhe-rs/tfhe/examples/hpu/lwe_remote/protocol.rs:51-104 | a word count fits both layouts exactly if it fits the CPU layout and the mask dimension is 3071, so never for 2048 |
| `BatchMetadata.ClientValidates` | overlays/suda/host/applications/vscode-lwe-encrypt-remote-offload/lwe_remote_protocol.cpp:200-249 | the client's divisions accept exactly the shapes whose counts the server can compute and that match the operation |
| `RemoteProtocol.WriteCiphertextFrame` | overlays/tfhe-rs/tfhe/examples/hpu/lwe_remote/protocol.rs:140-193 | a valid frame is appended as its encoding; an invalid one writes nothing |
| `RemoteProtocol.WriteErrorFrame` | overlays/tfhe-rs/tfhe/examples/hpu/lwe_remote/protocol.rs:204-245 | an error frame is appended as its encoding |
| `RemoteProtocol.ReadFrame` | overlays/tfhe-rs/tfhe/examples/hpu/lwe_remote/protocol.rs:247-348 | the reader returns f exactly if the stream starts with the encoding of an acceptable f, and consumes those bytes and no more |
| `RemoteProtocol.OfferIsUnique` | overlays/tfhe-rs/tfhe/examples/hpu/lwe_remote/protocol.rs:247-348 | no stream starts with the encodings of two acceptable frames |
| `RemoteProtocol.WriteThenRead` | overlays/tfhe-rs/tfhe/examples/hpu/lwe_remote/protocol.rs:140-348 | a request or response that is written and read back comes back exactly if it is valid and its payload is within the limit, and the bytes that follow are left |
| `RemoteProtocol.FrameLayout` | overlays/tfhe-rs/tfhe/examples/hpu/lwe_remote/protocol.rs:140-193 | where every field stands on the wire: the bytes LWERPC01, version, kind, request id, operation, status, scalar, eight words of metadata, payload size, payload |
| `RemoteProtocol.ErrorFrameLayout` | overlays/tfhe-rs/tfhe/examples/hpu/lwe_remote/protocol.rs:204-245 | an error frame is of kind 3 with status 1, no metadata, and its text as payload |
| `RemoteProtocol.TimingLayout` | overlays/tfhe-rs/tfhe/examples/hpu/lwe_remote/protocol.rs:350-378 | the trailer is the bytes LWEBEN01, version 1, request id, twelve durations and the payload size |
| `RemoteProtocol.AcceptedFrames` | overlays/tfhe-rs/tfhe/examples/hpu/lwe_remote/protocol.rs:247-348 | which frames a reader accepts, in numbers: versions 1 and 2, kind 3 with a valid text within the limit, kinds 1 and 2 with the announced words within the limit |
| `RemoteProtocol.WriteErrorThenRead` | overlays/tfhe-rs/tfhe/examples/hpu/lwe_remote/protocol.rs:204-306 | an error frame that is written and read back comes back exactly if its version is known and its text is valid and within the limit, and the bytes that follow are left |
| `RemoteProtocol.ReadThenWrite` | overlays/tfhe-rs/tfhe/examples/hpu/lwe_remote/protocol.rs:140-348 | an accepted request or response with status zero is written again as exactly the bytes consumed |
| `RemoteProtocol.WriteTiming` | overlays/tfhe-rs/tfhe/examples/hpu/lwe_remote/protocol.rs:350-378 | the trailer is appended as magic, version, request id, durations and payload size |
| `Bridge.Import` | overlays/tfhe-rs/tfhe/examples/hpu/lwe_remote/bridge.rs:95-168 | accepted exactly if counts and geometry fit and all padding is zero; the cuts come out in order |
| `Bridge.Export` | overlays/tfhe-rs/tfhe/examples/hpu/lwe_remote/bridge.rs:170-216 | accepted exactly if the shape fits; the words are the zero-padded cuts in order |
| `Bridge.ExportOfImport` | overlays/tfhe-rs/tfhe/examples/hpu/lwe_remote/bridge.rs:139-168 | exporting the cuts of given words reproduces the words exactly if all padding is zero |
| `Bridge.ImportOfExport` | overlays/tfhe-rs/tfhe/examples/hpu/lwe_remote/bridge.rs:183-207 | importing exported cuts reproduces them, and their padding is zero |
| `Bridge.ImportThenExport` | overlays/tfhe-rs/tfhe/examples/hpu/lwe_remote/bridge.rs:95-216 | exporting an accepted import reproduces the words |
| `Bridge.ExportThenImport` | overlays/tfhe-rs/tfhe/examples/hpu/lwe_remote/bridge.rs:95-216 | importing an accepted export reproduces the nested ciphertexts |
| `Bridge.FlattenIsInjective` | overlays/tfhe-rs/tfhe/examples/hpu/lwe_remote/bridge.rs:139-168 | batch shape and block order determine the nested ciphertexts |
| `RemoteServer.ProcessRequest` | overlays/tfhe-rs/tfhe/examples/hpu/lwe_remote_server.rs:265-444 | success means that the request was valid, the metadata changed in its word count at most, and the words are what the operation makes of the request's items; with an HPU that keeps the shape of its items a request succeeds exactly if it passes the checks and fits its operation |
| `RemoteServer.MetadataIsArithmetic` | overlays/tfhe-rs/tfhe/examples/hpu/lwe_remote/bridge.rs:16-52 | metadata is accepted exactly if dimension and widths are the server's, as many blocks as fit a byte are announced, delta, message, carry and padding bits add up to 64 modulo 2^64, and the word count is that of one of the two layouts |
| `RemoteServer.DeltaIsWhatRemains` | overlays/tfhe-rs/tfhe/examples/hpu/lwe_remote/bridge.rs:43-50 | with widths and delta below 64 those bits add up to exactly 64 |
| `RemoteServer.RequestIsArithmetic` | overlays/tfhe-rs/tfhe/examples/hpu/lwe_remote_server.rs:273-292 | a request passes exactly with kind 1, status 0, operation 0 to 3, a scalar below 256 and fitting metadata |
| `RemoteCalls.HostMetadataFits` | overlays/suda/host/applications/vscode-lwe-full-pipeline/vscode-lwe-full-pipeline.cpp:1618-1627 | the metadata that the hosts send, in either layout and for any batch below 2^32 bytes, fits a server with dimension 2048 and widths 2 and 2 |
| `RemoteCalls.Psi64Fits` | overlays/tfhe-rs/mockups/tfhe-hpu-mockup/params/tuniform_64b_pfail128_psi64.toml:1-50 | the psi64 parameters fit the geometry that the native import demands of that metadata |
| `RemoteCalls.GeometryIsExact` | overlays/tfhe-rs/tfhe/examples/hpu/lwe_remote/bridge.rs:100-130 | exactly which geometries the native import accepts for that metadata |
| `RemoteCalls.CallFromHost` | overlays/suda/host/applications/vscode-lwe-encrypt-remote-offload/lwe_remote_protocol.cpp:310-553 | every call the hosts make succeeds within the limits: an echo always, an addition on its own layout with an HPU that keeps shapes and, on native words, clean padding and psi64 geometry; the client gets the right number of words, what the operation makes of the request, and leaves no byte unread |
| `RemoteServer.HandleConnection` | overlays/tfhe-rs/tfhe/examples/hpu/lwe_remote_server.rs:156-244 | the reply is an error frame, or the response frame with its timing trailer, to exactly the request on the wire |
| `RemoteSession.SendRequest` | overlays/suda/host/applications/vscode-lwe-encrypt-remote-offload/lwe_remote_protocol.cpp:324-395 | the client sends exactly the calls it agrees to, as the encoding of the request frame |
| `RemoteSession.RequestLayout` | overlays/suda/host/applications/vscode-lwe-encrypt-remote-offload/lwe_remote_protocol.cpp:358-381 | the request on the wire, word by word: version 2, kind 1, status 0 |
| `RemoteSession.ResponseLayout` | overlays/suda/host/applications/vscode-lwe-encrypt-remote-offload/lwe_remote_protocol.cpp:420-476 | the response the client accepts, word by word: version 2, kind 2, status 0 |
| `RemoteSession.SendWords` | overlays/suda/host/applications/vscode-lwe-encrypt-remote-offload/lwe_remote_protocol.cpp:251-270 | the chunked sender writes the words in order |
| `RemoteSession.ReceiveWords` | overlays/suda/host/applications/vscode-lwe-encrypt-remote-offload/lwe_remote_protocol.cpp:272-294 | the chunked receiver reads exactly the words on the wire |
| `RemoteSession.ReceiveResponse` | overlays/suda/host/applications/vscode-lwe-encrypt-remote-offload/lwe_remote_protocol.cpp:397-552 | the client succeeds exactly on a response to its call followed by its timing trailer, with that response's words |
| `RemoteSession.MetadataAgrees` | overlays/suda/host/applications/vscode-lwe-encrypt-remote-offload/lwe_remote_protocol.cpp:456-476 | for all four operations server and client compute the same response metadata |
| `RemoteSession.ErrorIsNoAnswer` | overlays/suda/host/applications/vscode-lwe-encrypt-remote-offload/lwe_remote_protocol.cpp:431-441 | an error frame is never taken for a response |
| `RemoteSession.Session` | overlays/suda/host/applications/vscode-lwe-encrypt-remote-offload/lwe_remote_protocol.cpp:310-553 | an agreed call within the request limit is answered exactly if it passes the server's checks, fits its operation and its answer fits a frame; a reply within the limits is accepted by the client, delivers exactly its words and leaves no unread byte; a refusal or silence never gives success |
| `Storage.CheckOptions` | overlays/suda/host/applications/vscode-lwe-full-pipeline/vscode-lwe-full-pipeline.cpp:344-396 | options are accepted exactly if the sizes fit and no block of the source range holds a byte of the destination |
| `Storage.LbasAreLeast` | overlays/suda/host/applications/vscode-lwe-full-pipeline/vscode-lwe-full-pipeline.cpp:549-552 | the block count is the least that is enough: n - 1 blocks are too few and n are not |
| `Storage.SourceRanges` | overlays/suda/host/applications/vscode-lwe-full-pipeline/vscode-lwe-full-pipeline.cpp:1272-1390 | the descriptors tile exactly the input range, 1 to 32 blocks each |
| `Storage.WriteBlocks` | overlays/suda/host/applications/vscode-lwe-full-pipeline/vscode-lwe-full-pipeline.cpp:864-901 | with at most 32 blocks per command, only the named range can change, and on success it holds the buffer |
| `Storage.ReadBlocks` | overlays/suda/host/applications/vscode-lwe-full-pipeline/vscode-lwe-full-pipeline.cpp:864-901 | on success the buffer holds the named blocks |
| `Storage.Store` | overlays/suda/host/applications/vscode-lwe-full-pipeline/vscode-lwe-full-pipeline.cpp:1131-1175 | success leaves the plaintext and then zeros in every block that holds a byte of it; no other block changes, whatever the device answers |

## Left out

- HPU scalar addition, key generation and key switching: foreign code; the server takes the HPU as a function of one item and the scalar.
- Statistical and cryptographic strength of generator and noise: only functional behaviour is modelled.
- Sockets, timeouts, NVMe and SLM system calls, file I/O, option text, logging, clocks and timing values.
- MCDMA register writes, resets, memory barriers and status fields other than the completion bit and the transferred bytes.
- Failed submissions: a length of 2^26 or more part way through, a failed address translation, and the paths that return the IO after a failed send are excluded by precondition.
- DmaRing.Channel.Enable: does not say whether hardware still writes to the buffers of requests that a reset drops.
- DmaRing.Channel.HardwareCompletes: hardware completes descriptors in any order; the order in which a real engine does so is not constrained.
- The rest of qdma.c: queue setup, reconnect, bio mapping and timeouts.
- Prp.SetupPrps: `dma_addr & (page_size - 1)` is modelled as a remainder, which is the same for page sizes that are powers of two; lengths are unbounded, while the driver keeps them in 32-bit integers; for lists that are not page aligned only memory safety and the error exits are stated.
- SlmReader.RunInv: steps are sequentially consistent; the relaxed memory order of the index and the stop flag is not modelled. Nor are a failure to start a thread and the casts of offset and length to `int`, which are exact below 2^31.
- LweEncrypt.Encrypt: or-ing disjoint bit fields and storing bit ranges of 512-bit registers are modelled as arithmetic on bytes and words.
- The CPU-layout verifier `extract_and_verify` and `parse_hpu_native`: they repeat routines modelled for the native layout or only compare sizes.
- RemoteProtocol.Wire.ReadExact: a read past the end of the stream loses everything; how much of a partial read is consumed on an error is not modelled.
- RemoteServer.ProcessRequest: allocation failures and the memory sanitizer are not modelled; the subtraction in the delta check wraps as in a release build.
- Storage.SourceRanges: the size of a descriptor is a parameter, because its declaration is not part of this model.
- vscode-lwe-encrypt-remote-offload.cpp, verify_lwe_encrypt_output.rs, dump.rs, lwe_remote_client.rs, the benchmarks and the Python summarisers: repeat routines covered here, or measure time.
