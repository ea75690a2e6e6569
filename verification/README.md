# Router applications: a verified model

This project models the parts of the router applications that compute something hard to get right,
in the form the C code gives them: objects whose fields change in place are classes, in-place
algorithms keep their arrays and loops, and every such method is proved against a specification that
does not mention how it works. The laws the code is for are then proved about those specifications,
over all inputs, all runs or all reachable states.

| file | part of the system |
|---|---|
| `Sha256Spec.dfy`, `Sha256Laws.dfy`, `Sha256.dfy` | SHA-256 on whole messages (FIPS 180-2), what its parts are, and the streaming context of `wapid/hmac.c` that refines it |
| `Hmac.dfy` | HMAC (section 2 of RFC 2104), `hmac_sha256` and the chained expansion `KD_hmac_sha256` |
| `Crc32.dfy` | the IEEE 802.11 frame check sequence as polynomial long division, the shift register, the table and its loop |
| `Wep.dfy`, `Rc4Laws.dfy` | RC4 in place, what determines it, the cyclic key fill, the integrity check value, the search through the configured keys |
| `EventQueue.dfy` | the doubly linked queues of the art driver, on the heap |
| `DriverSpec.dfy`, `Driver.dfy` | runs of event creation, interrupt passes and event delivery; the driver on the linked queues refines each step |
| `DynDnsSpec.dfy`, `DynDns.dfy` | the update machine of the dynamic DNS client and its runs; the client with its fields |
| `OptionFile.dfy` | the resumable option file parser, whole-file tokenising, and the escaped round trip |
| `Base64.dfy` | the Base64 encoder and its tables (section 4 of RFC 4648) |
| `SampRing.dfy` | the ring of saved messages per frequency |
| `GsmTriplets.dfy` | the rotating cursor over GSM triplets |
| `ChannelLoad.dfy` | the running channel load and the trigger of a channel change |
| `Arithmetic.dfy`, `Bits.dfy`, `Wrappers.dfy` | division as in C, small arithmetic facts, words by their bits, optional values |

## How the main results fit together

Where a method and its specification share a formula, the formula is pinned by laws that do not repeat it:
bits, roots, inverses, conservation, or the standard's own relations between neighbouring values.

* **SHA-256.** `Context.Valid` ties buffer, index, two-word bit count and intermediate hash to the bytes
  consumed. `Input` and `Result` are proved against a three-valued phase of the context (absorbing,
  finished, failed), and `CuttingIsIrrelevant` says that any way of cutting a message into calls leads to
  the same phase. So `Result` yields the digest of the concatenation for every message under 2^64 bits.
  The call of `Input` that goes over this length still returns success; the error shows in the next call of
  `Input` or `Result`.
* **CRC and WEP.** `DivisionAlgorithm` fixes what remainder means, `FeedDivides` ties a one-bit register to
  it, `TableBits` and `Turn` tie the table step to the register. Linearity and injectivity of the register
  give burst detection, which `AlteredFrameRejected` carries through the encryption to sealed frames.
* **Driver.** A pass of the interrupt handler is first described by recursion over the queue and then in one
  piece (`ScanMeaning`). The invariant of `RunKeeps` counts every accepted request; conservation of one-shot
  events, delivery order and parameters follow. `Driver.Client` shows that the linked queues do exactly these
  steps.
* **Dynamic DNS.** The network and the servers are arbitrary per round. `RunKeeps` keeps three facts at once:
  all servers store the same address, no alias without a pending update is out of date, and the
  forced-refresh counter stays bounded.

## Where the code differs from what one might expect

* A queue counts its events in 16 bits (`art/modules/dk_event.c`), so 65536 waiting events look like none
  (`FloodHidesEvents`); `GetNextDelivers` gives the exact condition. `deleteEventQueue` leaves `pTail` pointing
  at a freed event; only `pHead` says whether a queue is empty.
* The scan of the interrupt handler ends after the first one-shot event it moves, because removing that event
  clears its forward link, and it also ends when a copy cannot be allocated. So a pass need not trigger every
  event it matches (`SecondOneShotWaits`); `PassTriggersAll` says exactly when it does, and `OneShotsDrain` that
  matching one-shot events leave one per interrupt, in order.
* `hmac_sha256` takes an unsigned key length and hands it on as a signed one: a key of 2^31 bytes or more
  counts as empty, and only such a key is not the one given (`UnsignedKey`). `KD_hmac_sha256` computes each digest in a buffer of its own, so its text
  may lie in the output buffer; only the key may not.
* In `do_update_alias_table` a failure ends the inner loop only. The remaining servers are still updated, and
  the code of the last server with a pending alias is returned (`UpdateFromCode`). So RC_OK does not mean that
  nothing is left pending (`RejectionHidden`), nor does every rejection stop the main loop (`RejectionGoesOn`).
  `GoodCodeMeans` and `RejectionStops` give the exact conditions. Even a server whose own inner loop fails may
  have nothing left pending, if only the shutdown behind its last alias failed (`ClearsExactly`). An alias that
  fails keeps all pending ones behind it at its server waiting (`BlockedForever`, `SecondAliasWaits`);
  `AliasInTable` says exactly when an alias is announced.
* The comment above `parser_read_option` says that comments are skipped. They are, but a comment right
  behind a word does not end the word (`CommentIsSkipped`, `CommentGluesLines`). `CommentActsAsLineEnd` and
  `WordBeforeComment` say exactly when a comment acts as its line end and when the word stays a word; before a
  comment that ends with the file it always does (`WordBeforeLastComment`).
* The 16-byte key fill of `try_wep` repeats a key without a seam exactly when its length divides 16
  (`FillIsSeamless`); the configured keys of 5 and 13 bytes with their 3 bytes of IV do.
* `sim_req_auth` sends at least three triplets whenever the subscriber has one, repeating them if there are
  fewer; `ChallengesDiffer` says exactly when they are all different. The cursor is shared by all subscribers,
  so the calls of one can make another get the same triplet again and again (`OneIsStarved`);
  `AnswerAfterCalls` and `NeverSent` give the exact conditions over any calls. The text of the reply is cut at
  1000 bytes; `ReplyIsComplete` says exactly when.

## Model

| member | source | states |
|---|---|---|
| `Sha256.LoadBlock` | wapid/hmac.c:178-184 | the first sixteen words are those of the FIPS 180-2 message schedule of the block |
| `Sha256.ExpandBlock` | wapid/hmac.c:186-188 | the loop completes the schedule to all 64 words |
| `Sha256.RunRounds` | wapid/hmac.c:189-208 | the loop over the eight working variables computes the 64 rounds of section 6.2 of FIPS 180-2 |
| `Sha256Laws.ChChooses` | wapid/hmac.c:112-112 | choice has the bits of y where x has a one and those of z elsewhere |
| `Sha256Laws.ChDetermined` | wapid/hmac.c:112-112 | and is the only word that has |
| `Sha256Laws.MajDecides` | wapid/hmac.c:113-113 | majority: where z has a one, one of x and y suffices, elsewhere both are needed |
| `Sha256Laws.MajDetermined` | wapid/hmac.c:113-113 | and is the only such word |
| `Sha256Laws.BigSigma0Bit` | wapid/hmac.c:118-121 | bit k is the parity of the bits at k + 2, k + 13 and k + 22, counted around the word |
| `Sha256Laws.BigSigma1Bit` | wapid/hmac.c:118-122 | the same for k + 6, k + 11 and k + 25 |
| `Sha256Laws.SmallSigma0Bit` | wapid/hmac.c:116-123 | k + 7 and k + 18 around the word, and k + 3 only within it |
| `Sha256Laws.SmallSigma1Bit` | wapid/hmac.c:116-124 | k + 17 and k + 19 around the word, and k + 10 only within it |
| `Sha256Laws.RoundConstants0` | wapid/hmac.c:155-169 | constants 0 to 15 are the first 32 bits of the fractions of the cube roots of the primes 2 to 53 |
| `Sha256Laws.RoundConstants1` | wapid/hmac.c:155-169 | constants 16 to 31: the primes 59 to 131 |
| `Sha256Laws.RoundConstants2` | wapid/hmac.c:155-169 | constants 32 to 47: the primes 137 to 223 |
| `Sha256Laws.RoundConstants3` | wapid/hmac.c:155-169 | constants 48 to 63: the primes 227 to 311 |
| `Sha256Laws.InitialHash` | wapid/hmac.c:239-265 | the initial hash value: the same of the square roots of the first eight primes |
| `Sha256Laws.WordOfBytes` | wapid/hmac.c:180-183 | words and big-endian bytes: from bytes to a word and back |
| `Sha256Laws.BytesOfWord` | wapid/hmac.c:367-368 | and from a word to bytes and back |
| `Sha256Laws.RoundLaw` | wapid/hmac.c:197-208 | a round, in terms of any words that have the bits of its parts |
| `Sha256Laws.ScheduleStarts` | wapid/hmac.c:178-184 | the first sixteen schedule words are the bytes of the block |
| `Sha256Laws.ScheduleLaw` | wapid/hmac.c:186-188 | the others, in terms of any words that have the bits of the small sigmas of earlier ones |
| `Sha256Laws.CompressLaw` | wapid/hmac.c:152-220 | for any 65 states linked by rounds, compression is the word by word sum of the first and the last |
| `Sha256Laws.LengthField` | wapid/hmac.c:347-356 | byte i from the right of the length field is the length shifted by i bytes |
| `Sha256Laws.PadLaw` | wapid/hmac.c:330-358 | message, one bit, zeros, length, in the least number of blocks |
| `Sha256Laws.DigestLaw` | wapid/hmac.c:320-371 | for any hash values linked by the blocks of the padded message, the digest is the bytes of the last |
| `Sha256.Context.Reset` | wapid/hmac.c:239-265 | the context stands for the empty message, with the initial hash value of section 5.3.2 |
| `Sha256.Context.ProcessMessageBlock` | wapid/hmac.c:152-220 | the intermediate hash becomes the compression of the buffered block, and the buffer index restarts |
| `Sha256.Context.AddLength` | wapid/hmac.c:127-131 | two 32-bit words with carry count 64 bits; the context is marked corrupted exactly on overflow |
| `Sha256.Context.AbsorbByte` | wapid/hmac.c:296-302 | one turn of the loop appends one byte to the message the context stands for, across block boundaries and up to the length limit |
| `Sha256.Context.Input` | wapid/hmac.c:286-304 | every call extends the message by its bytes, or fails with the code of the source: null data, finished context, corrupted context; a call that overflows the length returns success itself and leaves the error to the next call |
| `Sha256.CuttingIsIrrelevant` | wapid/hmac.c:286-304 | any sequence of calls leaves the context as one call with the concatenation does, errors included |
| `Sha256.HashPieces` | wapid/hmac.c:239-371 | reset, one input per piece and result give the digest of the concatenation of all pieces below 2^64 bits, and the error beyond with the digest buffer untouched |
| `Sha256.AfterInputAppend` | wapid/hmac.c:286-304 | two calls in a row are one call with both pieces, in every phase |
| `Sha256.InputLaw` | wapid/hmac.c:286-304 | when a call fails and with which code, and that a message fails exactly when it reaches 2^64 bits |
| `Sha256.OneBlock` | wapid/hmac.c:341-358 | with fewer than 56 buffered bytes the FIPS padding is one more block |
| `Sha256.TwoBlocks` | wapid/hmac.c:334-358 | with 56 or more it is two more blocks, the second one zeros and length |
| `Sha256.LengthWords` | wapid/hmac.c:349-356 | the eight octets taken from the two length words are the 64-bit length, most significant first |
| `Sha256.Context.PadIntoSecondBlock` | wapid/hmac.c:334-358 | the two-block case ends with the hash of the padded message |
| `Sha256.Context.CloseBlock` | wapid/hmac.c:334-340 | the first of the two blocks: buffered bytes, pad byte and zeros are compressed |
| `Sha256.Context.LengthBlock` | wapid/hmac.c:344-358 | the second one: zeros and the length are compressed |
| `Sha256.Context.PadIntoBlock` | wapid/hmac.c:341-358 | the one-block case ends with the hash of the padded message |
| `Sha256.Context.Result` | wapid/hmac.c:320-371 | the digest buffer receives the FIPS 180-2 digest of the bytes consumed, again on a second call; error codes otherwise, with the buffer untouched |
| `Sha256.DigestByte` | wapid/hmac.c:367-368 | output byte i is byte i mod 4 of hash word i div 4 |
| `Sha256.Mhash` | wapid/hmac.c:498-505 | the three calls together give the digest of the data |
| `Hmac.Shorten` | wapid/hmac.c:406-414 | keys longer than a block are replaced by their digest, others kept, non-positive lengths are the empty key |
| `Hmac.FillPad` | wapid/hmac.c:416-425 | a pad is the key, filled with zeros to a block, with the pad byte added everywhere |
| `Hmac.HmacReset` | wapid/hmac.c:397-428 | afterwards the outer pad is stored and the context has absorbed exactly the inner pad |
| `Hmac.HmacResult` | wapid/hmac.c:451-459 | though context and digest buffer serve both passes, the result is the digest of outer pad and inner digest |
| `Hmac.ComputeHmac` | wapid/hmac.c:487-491 | for keys of every length and every text the result is the HMAC of section 2 of RFC 2104 |
| `Hmac.HmacLaw` | wapid/hmac.c:416-427 | with a key of at most 64 bytes, for any pads whose bytes give back the key and zeros when 0x36 and 0x5c are taken off |
| `Hmac.HmacLongKey` | wapid/hmac.c:406-414 | a key of more than 64 bytes acts as its digest |
| `Hmac.UnsignedKey` | wapid/hmac.c:506-514 | which key an unsigned key length selects after its conversion to a signed one |
| `Hmac.HmacSha256` | wapid/hmac.c:506-514 | the first digest_length bytes of the code are written at their place and nothing else changes, even if the text lies in the output |
| `Hmac.KdHmacSha256` | wapid/hmac.c:516-531 | the output is the first out_len bytes of the chain T1 = HMAC(key, text), T(i+1) = HMAC(key, Ti), and nothing behind it changes |
| `Hmac.ChainPrefix` | wapid/hmac.c:522-527 | fewer links are a prefix of more links |
| `Hmac.ExpandPrefix` | wapid/hmac.c:516-531 | a shorter output is a prefix of a longer one |
| `Hmac.ExpandLaw` | wapid/hmac.c:516-531 | the first block of 32 bytes is the code of the text and every other the code of the block before it, the last one cut |
| `Crc32.DivisionAlgorithm` | athr-hostap/wlantest/crc32.c:19-22 | quotient and remainder satisfy p = q * G + r with r below degree 32 for the G(x) of the comment |
| `Crc32.FeedDivides` | athr-hostap/wlantest/crc32.c:19-90 | a register fed bit by bit holds the remainder of everything fed to it |
| `Crc32.TableIsDivision` | athr-hostap/wlantest/crc32.c:24-77 | every table entry is its index shifted eight times through the reflected divisor |
| `Crc32.TableBits` | athr-hostap/wlantest/crc32.c:24-77 | in terms of the register: the entry is the index fed with eight zero bits |
| `Crc32.LookUp` | athr-hostap/wlantest/crc32.c:87-87 | the table access returns that value |
| `Crc32.Turn` | athr-hostap/wlantest/crc32.c:87-87 | one turn of the loop feeds the eight bits of a byte, in transmission order |
| `Crc32.Crc32` | athr-hostap/wlantest/crc32.c:80-90 | for frames of every length the value is the complemented remainder that the standard defines |
| `Crc32.FeedIsLinear` | athr-hostap/wlantest/crc32.c:80-90 | feeding sums gives sums |
| `Crc32.FeedInjective` | athr-hostap/wlantest/crc32.c:86-87 | equal input never makes two different registers meet |
| `Crc32.BurstDetected` | athr-hostap/wlantest/crc32.c:80-90 | bit strings that differ only within 32 consecutive places leave different registers |
| `Crc32.FourByteWindow` | athr-hostap/wlantest/crc32.c:80-90 | frames of equal length that differ only within four consecutive bytes have different check sequences |
| `Crc32.ResidueTest` | athr-hostap/wlantest/crc32.c:80-90 | four bytes are the check sequence of a body if and only if body and bytes together leave the fixed residue |
| `Crc32.KnownValue` | athr-hostap/wlantest/crc32.c:80-90 | the check value of the digits 1 to 9 is CBF43926 |
| `Wep.ScheduleKey` | athr-hostap/wlantest/wep.c:29-36 | the in-place loop computes the RC4 key schedule of the 16-byte key |
| `Wep.StreamTurn` | athr-hostap/wlantest/wep.c:42-45 | one turn advances the generator and gives its key stream byte |
| `Wep.WepCrypt` | athr-hostap/wlantest/wep.c:22-48 | the first plen bytes are combined with the RC4 key stream, the others stay |
| `Wep.SchedulePermutes` | athr-hostap/wlantest/wep.c:33-36 | S is a permutation of 0..255 after every swap of the key schedule |
| `Wep.StreamPermutes` | athr-hostap/wlantest/wep.c:41-47 | and before every byte of the key stream, for every key |
| `Rc4Laws.ScheduleStarts` | athr-hostap/wlantest/wep.c:29-32 | the key schedule starts with every entry at its own place |
| `Rc4Laws.ScheduleLaw` | athr-hostap/wlantest/wep.c:33-36 | each swap exchanges entry n with the one at the index that old index, entry and key byte give, and nothing else |
| `Rc4Laws.IndexIsTotal` | athr-hostap/wlantest/wep.c:33-36 | the index is the sum modulo 256 of all entries met and key bytes used |
| `Rc4Laws.KeyRecovered` | athr-hostap/wlantest/wep.c:34-34 | every key byte can be found again from two neighbouring indices and an entry |
| `Rc4Laws.KeysDiffer` | athr-hostap/wlantest/wep.c:29-36 | different keys of equal length have different schedules |
| `Rc4Laws.StreamLaw` | athr-hostap/wlantest/wep.c:41-47 | byte k of the stream: place k + 1, index moved by the entry there, exchange, and the entry at the sum of the two |
| `Rc4Laws.CryptByte` | athr-hostap/wlantest/wep.c:45-45 | each byte is added to its byte of the key stream |
| `Rc4Laws.FillByte` | athr-hostap/wlantest/wep.c:58-63 | the 16 bytes of the filled key |
| `Rc4Laws.StillStream` | athr-hostap/wlantest/wep.c:22-48 | for the key that leaves the box as it is, the key stream starts with 2, 5, 7, 13 |
| `Wep.CryptInvolution` | athr-hostap/wlantest/wep.c:22-48 | encrypting twice gives the data back |
| `Wep.FillKey` | athr-hostap/wlantest/wep.c:58-63 | byte i of the 16-byte buffer is key byte i modulo the key length |
| `Wep.FillIsSeamless` | athr-hostap/wlantest/wep.c:58-63 | indexing the filled buffer modulo 16 is indexing the key modulo its length, for all keys of a length, if and only if the length divides 16 |
| `Wep.FillKeepsSchedule` | athr-hostap/wlantest/wep.c:33-63 | then the key schedule is the one of the key itself |
| `Wep.FillKeepsPad` | athr-hostap/wlantest/wep.c:33-63 | and so is the key stream |
| `Wep.MatchByWords` | athr-hostap/wlantest/wep.c:67-70 | comparing the CRC with the little-endian word of the last four bytes decides whether these are the check sequence |
| `Wep.CheckIcv` | athr-hostap/wlantest/wep.c:67-70 | the check accepts exactly the plaintexts whose last four bytes are the check sequence of the others |
| `Wep.TryWep` | athr-hostap/wlantest/wep.c:51-73 | plain receives the decrypted bytes in every case; the result is 0 exactly if they carry their check sequence |
| `Wep.OpenSeal` | athr-hostap/wlantest/wep.c:22-73 | opening what was sealed with a key indexed modulo its own length returns body and check value and passes |
| `Wep.MatchIsResidue` | athr-hostap/wlantest/wep.c:67-70 | the check passes if and only if the whole plaintext leaves the fixed residue |
| `Wep.AlteredFrameRejected` | athr-hostap/wlantest/wep.c:65-70 | a sealed frame altered only within four consecutive bytes is rejected, wherever they lie |
| `Wep.TryKey` | athr-hostap/wlantest/wep.c:94-97 | one turn of the search: IV and configured key open the frame, or do not |
| `Wep.WepDecrypt` | athr-hostap/wlantest/wep.c:76-109 | the plaintext of the first key in the list that opens the frame, without its check value; none for short frames, no key or no memory |
| `Wep.FirstSomeIs` | athr-hostap/wlantest/wep.c:93-101 | the search stops at the first success, and finds one whenever there is one |
| `Wep.SealedFrameText` | athr-hostap/wlantest/wep.c:94-108 | for every IV, 5- or 13-byte key and body, the sealed frame opens to exactly that body |
| `Wep.SealedFrameOpens` | athr-hostap/wlantest/wep.c:76-109 | a frame sealed under a configured key is never dropped, and its body comes back unless an earlier key passes too |
| `EventQueue.Queue.constructor` | art/modules/dk_event.c:24-29 | a fresh queue is the empty sequence |
| `EventQueue.Queue.Delete` | art/modules/dk_event.c:36-61 | clears the sequence and the counter and leaves the tail pointer |
| `EventQueue.Queue.Push` | art/modules/dk_event.c:171-206 | appends, keeping forward and backward links inverse and the counter equal to the length modulo 2^16 |
| `EventQueue.Queue.Pop` | art/modules/dk_event.c:217-251 | takes the head, or nothing from an empty queue; the event comes back unlinked |
| `EventQueue.Queue.Remove` | art/modules/dk_event.c:262-309 | deletes at any position, head and tail included; the event comes back unlinked |
| `EventQueue.Queue.UnlinkForward` | art/modules/dk_event.c:279-286 | the forward chain skips the event |
| `EventQueue.Queue.UnlinkBackward` | art/modules/dk_event.c:288-299 | the backward chain skips it as well, and its own links are cleared |
| `EventQueue.DistinctAfterRemove` | art/modules/dk_event.c:262-309 | a removed event is nowhere left in its queue |
| `Driver.Client.CreateEvent` | art/modules/dk_func.c:289-330 | on the linked queues: exactly the creation step, accepted only if valid, allocated and of interrupt type, with result code 0 or -1 |
| `Driver.Client.GetNextEvent` | art/modules/dk_func.c:331-358 | on the linked queues: exactly the delivery step, with the twelve parameters of the oldest triggered event |
| `Driver.TestMask` | art/modules/dk_isr.c:181-181 | the test of the handler passes if and only if mask and register have a bit in common |
| `Driver.Client.Turn` | art/modules/dk_isr.c:175-227 | one turn of the scan, and the rest of the scan from where it goes on, together do what the scan does |
| `Driver.Client.HandleInterrupt` | art/modules/dk_isr.c:167-230 | on the linked queues: exactly the interrupt step, with both queues well linked and sharing no event |
| `DriverSpec.StopAt` | art/modules/dk_isr.c:171-228 | the scan ends at the first matching event that is one-shot or cannot be copied; all matching ones before it are persistent and copied |
| `DriverSpec.MatchesByBits` | art/modules/dk_isr.c:178-190 | an event matches if and only if it is of interrupt type and its mask has a bit in common with the register |
| `DriverSpec.ReportedAre` | art/modules/dk_isr.c:181-187 | the reported events are exactly those that ask for the interrupt, with the six registers as result |
| `DriverSpec.ScanMeaning` | art/modules/dk_isr.c:171-228 | copies of exactly the matching persistent events ahead of the stop are triggered in order, then the one-shot event there; only it leaves the ISR queue, which else keeps its events and order |
| `DriverSpec.PassTriggersAll` | art/modules/dk_isr.c:175-228 | a pass triggers every event that asks for the interrupt, by its bits, if and only if it is not stopped, or no event behind the one-shot event that stops it asks |
| `DriverSpec.SecondOneShotWaits` | art/modules/dk_isr.c:212-227 | a run with two one-shot events and one interrupt that matches both: one is triggered, the other still waits |
| `DriverSpec.PassTakesOne` | art/modules/dk_isr.c:175-228 | without a failed copy a pass triggers exactly the first matching one-shot event |
| `DriverSpec.OneShotsDrain` | art/modules/dk_isr.c:175-228 | from any state, m such passes trigger the first m matching one-shot events in order, or all if there are fewer |
| `DriverSpec.JoinSplit` | art/modules/dk_func.c:298-347 | the two 16-bit halves of the handle join to the same word |
| `DriverSpec.ScanFaithful` | art/modules/dk_isr.c:171-228 | a scan never changes the parameters an event was created with |
| `DriverSpec.ScanCounts` | art/modules/dk_isr.c:171-228 | a scan loses and doubles no one-shot event, and keeps every persistent one registered |
| `DriverSpec.CreationRegisters` | art/modules/dk_func.c:296-330 | exactly a valid request of interrupt type with memory is registered, behind those before |
| `DriverSpec.CreateKeeps` | art/modules/dk_func.c:289-330 | creation keeps the conservation invariant |
| `DriverSpec.InterruptKeeps` | art/modules/dk_isr.c:171-228 | an interrupt pass keeps it, whatever copies fail |
| `DriverSpec.StepKeeps` | art/modules/dk_func.c:289-358 | every step keeps it |
| `DriverSpec.RunKeeps` | art/modules/dk_func.c:289-358 | it holds over every run of create, interrupt and get-next steps |
| `DriverSpec.EachOneShotOnce` | art/modules/dk_isr.c:175-228 | each accepted one-shot event is in exactly one place, once: waiting, triggered or delivered; each persistent one stays registered once |
| `DriverSpec.DeliveredInOrder` | art/modules/dk_isr.c:220-224 | the events delivered, followed by those still triggered, are all events ever triggered, in that order |
| `DriverSpec.FiredByScan` | art/modules/dk_isr.c:177-193 | every event a pass triggers matches the primary register and holds all six registers of that pass |
| `DriverSpec.LogIsCaused` | art/modules/dk_isr.c:177-224 | over every run, each event ever triggered goes back to an interrupt step that matched it and reports its registers |
| `DriverSpec.DeliveredAsRequested` | art/modules/dk_func.c:331-358 | each delivered event carries its creation parameters, a zero mask as all ones, and the six registers of an interrupt of the run that has a bit in common with the mask |
| `DriverSpec.GetNextDelivers` | art/modules/dk_func.c:336-338 | an event is delivered if and only if the number of waiting ones is no multiple of 65536 |
| `DriverSpec.FloodHidesEvents` | art/modules/dk_func.c:336-338 | a run after which 65536 events wait and none is delivered |
| `DynDns.Client.ParseMyIpAddress` | inadyn/dyndns.c:317-328 | every server stores the new address, and its flag says whether that differs from the one before |
| `DynDns.Client.CheckAliasUpdateTable` | inadyn/dyndns.c:344-370 | all aliases of all servers are marked exactly if server 0 changed, an update is forced or the counter passed its limit |
| `DynDns.Client.UpdateAlias` | inadyn/dyndns.c:432-505 | one attempt: what each failure leaves and what acceptance changes |
| `DynDns.Client.UpdateServerAliases` | inadyn/dyndns.c:430-510 | the pending aliases of a server in order, up to the first failure |
| `DynDns.Client.UpdateAliasTable` | inadyn/dyndns.c:421-514 | all servers in order, failures included, with the last return code |
| `DynDns.Client.UpdateIp` | inadyn/dyndns.c:855-910 | a whole round, which leaves everything alone if no address was found |
| `DynDns.Client.MainLoop` | inadyn/dyndns.c:1039-1081 | the loop over any rounds, with its four ways to end and the counter |
| `DynDnsSpec.UpdateServerKeeps` | inadyn/dyndns.c:430-510 | aliases not pending stay announced; the counter restarts exactly with an acceptance; success without one means nothing was pending |
| `DynDnsSpec.UpdateFromKeeps` | inadyn/dyndns.c:421-514 | the same over all servers, although failures of earlier servers are overwritten |
| `DynDnsSpec.ServerCodeIsGood` | inadyn/dyndns.c:430-505 | a server code is good if and only if every attempt for a pending alias is |
| `DynDnsSpec.UpdateServerCode` | inadyn/dyndns.c:430-505 | the inner loop ends with the code of its first failing attempt, and keeps the code before if nothing was pending |
| `DynDnsSpec.UpdateServerLeaves` | inadyn/dyndns.c:430-505 | it leaves no alias pending if and only if every pending one is taken and no shutdown fails except behind the last |
| `DynDnsSpec.ClearsExactly` | inadyn/dyndns.c:430-505 | that is: if and only if the code of the server is good, or only the shutdown behind its last pending alias failed |
| `DynDnsSpec.UpdateFromCode` | inadyn/dyndns.c:428-513 | the function returns the code of the last server that has a pending alias, whatever the servers before did |
| `DynDnsSpec.UpdateFromLeaves` | inadyn/dyndns.c:428-513 | what is left pending is decided server by server, failures of other servers notwithstanding |
| `DynDnsSpec.AliasUpdated` | inadyn/dyndns.c:430-505 | an alias loses its pending mark and is accepted if and only if it was pending, its attempt is taken, and every pending alias before it at its server has a good attempt |
| `DynDnsSpec.AliasInTable` | inadyn/dyndns.c:421-514 | the same for a whole update of the tables: other servers do not matter |
| `DynDnsSpec.NotAttempted` | inadyn/dyndns.c:500-503 | attempts for aliases behind a failing one have no influence |
| `DynDnsSpec.GoodCodeMeans` | inadyn/dyndns.c:421-514 | RC_OK if and only if all attempts at the last server with a pending alias were good, or nothing was pending; nothing is left pending if and only if every server clears its aliases, given RC_OK every server before the last |
| `DynDnsSpec.RejectionHidden` | inadyn/dyndns.c:480-510 | two servers, the first rejects and the second accepts: RC_OK with an alias left pending |
| `DynDnsSpec.MarkingKeeps` | inadyn/dyndns.c:317-370 | since all servers store the same address, the flag of server 0 speaks for all |
| `DynDnsSpec.PendingAfterMarking` | inadyn/dyndns.c:351-367 | an alias is pending after marking if and only if it was before, or the address is another one, or the update is forced, or the counter is over its limit |
| `DynDnsSpec.CausedRound` | inadyn/dyndns.c:855-910 | with one of these causes and good attempts a round announces every alias of every server, once, under the address found |
| `DynDnsSpec.IdleRound` | inadyn/dyndns.c:855-910 | without a cause and with nothing pending it sends nothing, whatever the servers would answer |
| `DynDnsSpec.BlindRound` | inadyn/dyndns.c:855-910 | without an address it changes nothing |
| `DynDnsSpec.AttemptCodes` | inadyn/dyndns.c:436-499 | the code of an attempt is that of its first failing step |
| `DynDnsSpec.RoundKeeps` | inadyn/dyndns.c:855-910 | a round keeps both facts, and success without acceptance implies that the refresh was not due |
| `DynDnsSpec.TurnKeeps` | inadyn/dyndns.c:1039-1081 | a turn of the main loop keeps the loop invariant |
| `DynDnsSpec.RunKeeps` | inadyn/dyndns.c:1039-1081 | it holds after any rounds, whatever network and servers do |
| `DynDnsSpec.RejectionStops` | inadyn/dyndns.c:1039-1063 | a round ends the main loop with the rejection code if and only if the first failure of the last server with a pending alias has that code, or the search for the address returned it |
| `DynDnsSpec.RejectionGoesOn` | inadyn/dyndns.c:1039-1081 | the main loop goes on after the rejection of the two-server input |
| `DynDnsSpec.BlockedForever` | inadyn/dyndns.c:1039-1081 | over every run, a pending alias that fails in every round keeps the pending aliases behind it at its server from being announced |
| `DynDnsSpec.SecondAliasWaits` | inadyn/dyndns.c:1039-1081 | one server, two aliases, the first one failing: the main loop goes on and the second one is never announced |
| `DynDnsSpec.LoopEnds` | inadyn/dyndns.c:1039-1062 | without a stop command the loop ends exactly with a rejection code or once the total of rounds has succeeded |
| `DynDnsSpec.IterationsCount` | inadyn/dyndns.c:1052-1055 | the iterations are the rounds that succeeded |
| `DynDnsSpec.StopEnds` | inadyn/dyndns.c:1064-1075 | a stop command ends the loop after its round, with RC_OK unless the round was rejected or completed the total |
| `DynDnsSpec.AnnouncedAlways` | inadyn/dyndns.c:421-514 | at every round boundary of every run, an alias with no pending update was last accepted by its server under the current address |
| `DynDnsSpec.CounterBounded` | inadyn/dyndns.c:1039-1081 | with an alias on server 0 the counter at the head of the loop is at most max(forced_update_times, 0) + 1 |
| `DynDnsSpec.QuietIsBounded` | inadyn/dyndns.c:351-367 | from every reachable point at most that many rounds succeed in a row without an accepted announcement |
| `DynDnsSpec.QuietTime` | inadyn/inadyn_cmd.c:1019-1021 | in seconds: such rounds cover at most the forced update period and one sleep period |
| `DynDnsSpec.ClampSleep` | inadyn/inadyn_cmd.c:481-482 | the sleep period is kept between 30 seconds and 10 days, and moved to the nearer limit otherwise |
| `DynDnsSpec.ForcedTimesFit` | inadyn/inadyn_cmd.c:1021-1021 | forced_update_times is the number of whole sleep periods in the forced update period |
| `OptionFile.PushInBuffer` | inadyn/inadyn_cmd.c:635-644 | the characters are appended if they fit, else nothing changes |
| `OptionFile.OptionFileParser.TakeChar` | inadyn/inadyn_cmd.c:708-814 | the switch on state and character, buffer overflows included |
| `OptionFile.OptionFileParser.ReadChars` | inadyn/inadyn_cmd.c:687-819 | the loop reads up to the end of an option, of the file or an error |
| `OptionFile.OptionFileParser.ReadOneOption` | inadyn/inadyn_cmd.c:685-826 | one call: the option as a C string, the return code, the position and the state kept for the next call |
| `OptionFile.GetOptionsFromFile` | inadyn/inadyn_cmd.c:838-904 | the read loop stores the words of repeated calls up to the first failure, of reading or of storing, and returns its code; nothing is read without a buffer or a file |
| `OptionFile.StoredAll` | inadyn/inadyn_cmd.c:886-890 | with memory for every word all of them are stored |
| `OptionFile.StoredSome` | inadyn/inadyn_cmd.c:886-890 | otherwise exactly the words before the first failure are, with the memory error |
| `OptionFile.TokeniseByOption` | inadyn/inadyn_cmd.c:685-826 | tokenising in one go is the next option followed by tokenising from the state it leaves |
| `OptionFile.ReadAllTokenises` | inadyn/inadyn_cmd.c:873-891 | word by word with the state kept between calls equals tokenising the whole file at once, for every file |
| `OptionFile.WhiteIs` | inadyn/inadyn_cmd.c:740-760 | which characters are white space and which end a line |
| `OptionFile.ReadPiece` | inadyn/inadyn_cmd.c:708-810 | one character, escaped or plain, in any open state: what it adds to the buffer, or the buffer error |
| `OptionFile.ReadWord` | inadyn/inadyn_cmd.c:708-810 | a word goes into the buffer as it is seen, or it does not fit |
| `OptionFile.WordsReadBack` | inadyn/inadyn_cmd.c:685-826 | from any point between words, words written with escaped and plain characters are read back as they are seen, or end in the error of the first one that is too long |
| `OptionFile.MixedRoundTrip` | inadyn/inadyn_cmd.c:873-891 | words with each character escaped or plain, and any white space between them, come back as they are seen if and only if each then has at most 255 characters, else the buffer error |
| `OptionFile.SeenWordIs` | inadyn/inadyn_cmd.c:725-737 | as they are seen: with two dashes in front of those that open a line, unless they start with a dash or a backslash |
| `OptionFile.PlainRoundTrip` | inadyn/inadyn_cmd.c:873-891 | the same for an ordinary file of plain words and lines |
| `OptionFile.NameAndValue` | inadyn/inadyn_cmd.c:873-891 | a line with a name and a value reads as the dashed name and the value |
| `OptionFile.EscapedRoundTrip` | inadyn/inadyn_cmd.c:873-891 | non-empty NUL-free words written with every character escaped and white space between them come back exactly if all have at most 255 characters; otherwise the buffer error is returned |
| `OptionFile.CommentIsSkipped` | inadyn/inadyn_cmd.c:767-785 | a comment leaves the buffer alone and starts a new line without ending the word before it |
| `OptionFile.CommentGluesLines` | inadyn/inadyn_cmd.c:767-785 | a file of two lines that is read as one word |
| `OptionFile.CommentActsAsLineEnd` | inadyn/inadyn_cmd.c:767-791 | the comment has the effect of the line end it contains if and only if it does not stand directly behind a word |
| `OptionFile.ReadBehind` | inadyn/inadyn_cmd.c:685-826 | reading on with characters in the buffer reads the same ones behind them, if and only if they fit |
| `OptionFile.WordAtComment` | inadyn/inadyn_cmd.c:767-785 | a word directly before a comment stays a word of its own if and only if reading on behind the comment adds nothing to it, for every file |
| `OptionFile.AnyCommentIsSkipped` | inadyn/inadyn_cmd.c:767-785 | a comment up to the end of its line or of the file is skipped |
| `OptionFile.WordBeforeLastComment` | inadyn/inadyn_cmd.c:697-706 | a word before a comment that runs to the end of the file stays a word of its own |
| `OptionFile.WordBeforeComment` | inadyn/inadyn_cmd.c:767-797 | a word before a comment stays a word of its own if and only if white space stands between them or no further word follows in the file |
| `Base64.IndexIs` | inadyn/base64utils.c:53-64 | the encoding table is the alphabet of RFC 4648 |
| `Base64.Base64Is` | inadyn/base64utils.c:66-79 | the decoding table gives each letter its value, and marks the gaps |
| `Base64.B64Valid` | inadyn/base64utils.c:149-158 | accepts exactly the letters of the alphabet and replaces them by their values; what it leaves behind otherwise |
| `Base64.Sextets` | inadyn/base64utils.c:113-116 | shifts and masks pick the four sextets of the 24-bit group |
| `Base64.WriteGroup` | inadyn/base64utils.c:111-118 | three bytes become their four characters |
| `Base64.WriteRest` | inadyn/base64utils.c:120-131 | one or two left bytes become their characters, with the padding left in place |
| `Base64.EncodeInto` | inadyn/base64utils.c:108-131 | the loop over groups and the rest write every character of the encoding and leave the terminator |
| `Base64.B64Encode` | inadyn/base64utils.c:88-134 | null exactly for empty or non-7-bit input or no memory; else the RFC 4648 encoding with a terminator fills the buffer of 4 * ceil(n/3) + 1 bytes |
| `Base64.PaddingCompletes` | inadyn/base64utils.c:106-131 | padding stands exactly at the end, as much as the last group lacks |
| `Base64.DecodeEncode` | inadyn/base64utils.c:66-134 | decoding with the values of the table gives back the input |
| `SampRing.Ring.Save` | spectral/spectraldemo.c:145-186 | appends to the bounded queue, or drops the message when it is full, with all accesses in range and count_saved the length |
| `SampRing.Ring.Send` | spectral/spectraldemo.c:215-260 | takes the oldest message, or none, across all sentinel values of the indices |
| `SampRing.SavedMessages.ClearAll` | spectral/spectraldemo.c:107-119 | both queues are empty afterwards |
| `SampRing.SavedMessages.Find` | spectral/spectraldemo.c:127-133 | the ring of a known frequency, none for others |
| `SampRing.SavedMessages.SaveMessage` | spectral/spectraldemo.c:121-195 | only the queue of the given frequency changes, by the bounded append |
| `SampRing.SavedMessages.SendMessage` | spectral/spectraldemo.c:197-263 | only the queue of the given frequency changes, and its oldest message is returned |
| `SampRing.FirstInFirstOut` | spectral/spectraldemo.c:107-263 | over any interleaving, what was sent for a frequency is the accepted messages in order, and the rest of them is what waits |
| `SampRing.DroppedOnlyWhenFull` | spectral/spectraldemo.c:145-150 | all offered messages are accepted if and only if none comes while the ring is full |
| `SampRing.SixthIsLost` | spectral/spectraldemo.c:145-150 | five messages wait, the sixth is lost |
| `GsmTriplets.Gateway.GetGsmTriplet` | athr-hostap/hostapd/hlr_auc_gw.c:227-249 | the first triplet of the subscriber in cyclic order from the cursor, if any; the cursor moves behind it and the cycle rotates by one |
| `GsmTriplets.Gateway.SimReqAuth` | athr-hostap/hostapd/hlr_auc_gw.c:391-467 | max(3, wanted) triplets around the cycle are taken, or none if the subscriber has none, all different if and only if he has none or at least that many; the reply lists them as far as the buffer goes, or says failure, or is not sent if its beginning does not fit |
| `GsmTriplets.Gateway.ListTriplets` | athr-hostap/hostapd/hlr_auc_gw.c:436-451 | the loop takes triplets around the cycle, rotates it as far, and prints each |
| `GsmTriplets.SnprintfHex` | athr-hostap/src/utils/common.c:193-212 | as many whole bytes are printed as leave room for the terminating zero |
| `GsmTriplets.HexReads` | athr-hostap/src/utils/common.c:202-203 | the two digits of a byte give it back |
| `GsmTriplets.TripletLayout` | athr-hostap/hostapd/hlr_auc_gw.c:441-449 | Kc, SRES and RAND with their separators |
| `GsmTriplets.ReplyIsComplete` | athr-hostap/hostapd/hlr_auc_gw.c:436-451 | the reply lists all its triplets in full if and only if beginning and 59 characters for each stay below 1000 |
| `GsmTriplets.ReplyStarts` | athr-hostap/hostapd/hlr_auc_gw.c:436-451 | a reply that is cut starts with all triplets that fit |
| `GsmTriplets.OwnedIs` | athr-hostap/hostapd/hlr_auc_gw.c:231-237 | the places of a subscriber are exactly his triplets, in list order |
| `GsmTriplets.FoundBehind` | athr-hostap/hostapd/hlr_auc_gw.c:231-237 | a hit from the cursor on is the head of the cycle, and moving the cursor rotates the cycle |
| `GsmTriplets.FoundBefore` | athr-hostap/hostapd/hlr_auc_gw.c:239-246 | so it is for a hit from the start of the list |
| `GsmTriplets.CycleIsComplete` | athr-hostap/hostapd/hlr_auc_gw.c:227-249 | k calls for an owner of k triplets return each once, from every cursor including null, and then the cycle starts over |
| `GsmTriplets.ChallengesDiffer` | athr-hostap/hostapd/hlr_auc_gw.c:436-451 | the triplets of a reply are all different if and only if there are none or enough of them |
| `GsmTriplets.SingleTripletRepeats` | athr-hostap/hostapd/hlr_auc_gw.c:436-451 | a subscriber with one triplet gets it in every place of the reply |
| `GsmTriplets.MoveRotates` | athr-hostap/hostapd/hlr_auc_gw.c:227-249 | wherever the cursor moves, a cycle rotates by the triplets of its subscriber that are passed |
| `GsmTriplets.CallsRotate` | athr-hostap/hostapd/hlr_auc_gw.c:227-249 | so it does over any calls for any subscribers |
| `GsmTriplets.AnswerAfterCalls` | athr-hostap/hostapd/hlr_auc_gw.c:227-249 | after any calls for any subscribers, a subscriber gets the same triplet again if and only if the number of his triplets passed meanwhile is a multiple of how many he has |
| `GsmTriplets.NeverSent` | athr-hostap/hostapd/hlr_auc_gw.c:227-249 | a triplet is not sent in a run of calls if and only if the number of passed ones never stands at its place when its subscriber calls |
| `GsmTriplets.OwnCallPassesOne` | athr-hostap/hostapd/hlr_auc_gw.c:227-249 | his own call passes exactly one of them |
| `GsmTriplets.OneIsStarved` | athr-hostap/hostapd/hlr_auc_gw.c:227-249 | with places owned a, b, a and calls in turn from the null cursor, a gets the first triplet once and the last one ever after |
| `ChannelLoad.Monitor.IsDynamicChanChangeReqd` | spectral/spectral_daemon_eacs.c:15-37 | average, count, start stamp and demand after a report, demands leaving the state alone |
| `ChannelLoad.Monitor.StartMonitorScan` | spectral/spectral_daemon_eacs.c:43-47 | a scan starts with average 30 and no reports |
| `ChannelLoad.AverageBounds` | spectral/spectral_daemon_eacs.c:30-34 | after n counted non-negative loads the truncated average lies between mean - (n-1)/2 and mean, and within the range of the loads |
| `ChannelLoad.AverageIs` | spectral/spectral_daemon_eacs.c:30-34 | the new average is the integer part of the exact one |
| `ChannelLoad.FirstReport` | spectral/spectral_daemon_eacs.c:18-47 | the first load is compared with 30 and becomes the average |
| `ChannelLoad.StartIsStreak` | spectral/spectral_daemon_eacs.c:18-28 | with positive stamps the start stamp is the one of the first report of the current streak above average, or 0 |
| `ChannelLoad.DemandedExactlyWhen` | spectral/spectral_daemon_eacs.c:18-28 | a change is demanded if and only if the streak of reports above the average of their moment is longer than the timeout |
| `ChannelLoad.DemandedByAnyStreak` | spectral/spectral_daemon_eacs.c:18-28 | with stamps in order, if and only if some such run of reports up to now spans more than the timeout |

## Left out

- Sockets, netlink, `ioctl` copies, register and PCI access, timers, `system()` calls and logging; where a step depends on one, its result is an arbitrary input.
- Locks and concurrency below the step: that an interrupt pass and each ioctl are atomic is an assumption of the model. The code takes the driver lock for single queue operations only, and `GET_NEXT_EVENT` reads the counter without it.
- Null pointers handed to the driver, HMAC and parser functions, except the null message and digest arguments of SHA256Input and SHA256Result.
- Freeing memory, and with it the lifetime of events after delivery.
- `dk_isr.c`: reading the interrupt registers and the early returns before the scan (spurious interrupts, no busy client).
- The linked lists of WEP keys and GSM triplets, which the code only walks through at this point, are sequences; a null cursor is the position behind the end.
- The six result words of an event and the server and alias tables of the DNS client are sequences that the methods reassign, not arrays in place.
- HTTP requests, matching of server answers and scanning of the IP text in inadyn: an address per round and a verdict per update stand for them.
- The command-line handlers of inadyn other than the option file and the two period limits.
- `isspace` in locales other than C, and characters outside the C locale in option files.
- The Milenage branch of `sim_req_auth`, parsing of its request, and reading the triplet file.
- The response packet and the interference list that `send_saved_samp_msg` attaches; the model returns the saved message itself.
- Machine overflow of `avg_chan_load * num_scan_reports` and of time stamp differences in the channel load average.
- TKIP and CCMP in wlantest; wep_crypt is modelled for WEP frames.
- `art23-v6/modules` (same event logic), `spectral/spectral_samp.c` (its message pool has no defined first index), `spectral/spectral_save_samp_msgs.c` (repeats the save half of the ring).
- hostapd configuration and control code, `athr-hostap/files_zt`, the elliptic-curve wrappers of wapid, athplay and ivi: dispatch, I/O or wrappers around libraries that are not part of this model.
- Secrecy or attack resistance of the ciphers and hashes.
