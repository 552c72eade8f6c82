# MiniWin core, modelled and proved in Dafny

MiniWin is an operating system without a C library: its arithmetic, its parsers and its
protocol steps are all its own.  This project models those pieces in the form the source gives
them (limb and byte arrays changed in place, cursors that move through buffers, records whose
methods update their fields) and proves each of them against a specification that does not
mention how they work.

`dafny verify dfyconfig.toml` checks everything.

| subject | modules | what is proved |
|---|---|---|
| elliptic curves (`kernel/ecc.h`) | `ModArith`, `Fermat`, `Limbs`, `EccField`, `Curve`, `Jacobian`, `EccPoint`, `BitOps`, `EccScalar` | CIOS Montgomery multiplication, the Newton and Fermat inverses and the Montgomery constants are right for any limb count; the Jacobian formulas compute the chord-and-tangent sum in every special case; both scalar loops compute multiples; the signature check decides the equation of SEC 1 section 4.1.4 |
| AES and GCM (`kernel/aes.h`, `kernel/gcm.h`) | `Blocks`, `Aes`, `Ghash`, `GhashLaws`, `Gcm` | the cipher is that of FIPS 197, its substitution table the affine map of the inverse in GF(2^8); the inverse cipher undoes the cipher, CBC decryption undoes encryption; the 4-bit tables compute the bit-serial product of SP 800-38D section 6.3 and GHASH is a polynomial in the hash key; every byte of the key stream comes from the counter block its place calls for; opening undoes sealing and a rejected record is left alone |
| HTTP responses (`kernel/httpresp.h`) | `Scanning`, `HttpHeaders`, `HttpResp`, `HttpMessage` | exactly when the cuts between calls do not matter; the unwrapped body is the data of the chunks the walker passed; responses written as RFC 7230 writes them are read back, whatever the cuts |
| HTML (`kernel/dom.h`) | `DomTree`, `DomArena`, `DomTags`, `DomChars`, `DomBuild`, `DomParse`, `DomMarkup`, `DomReadBack` | for every byte string the arenas stay a tree with disjoint texts and the open elements stay a path; while there is room every token does exactly what its relation says; what start and end tags close is stated without the search; a forest that was written as markup is read back node for node |
| CSS (`kernel/css.h`) | `CssMatch`, `CssIndex` | selector matching is the existence of a chain of elements; the list of matched rules is the first 192 accepted ones of the buckets visited, in order, and agrees with a scan of all rules unless it was full |
| big numbers (`kernel/bignum.h`) | `Bignum`, `BignumBytes` | products, remainders and powers are exact up to moduli of 2^4159 |
| Hangul input (`kernel/hangul_ime.h`, `kernel/font_ko.h`) | `HangulIme`, `HangulBlocks` | whatever keys are typed, what is written holds exactly their jamo, in the one way they divide into blocks; typing the keys of any sentence appends its UTF-8 |
| LZ4 (`kernel/lz.h`) | `Lz4` | the decoder accepts exactly the serialised valid blocks and returns their expansion |
| DNS names (`kernel/dns.h`) | `DnsName` | encoding, decoding and skipping agree; exactly the names whose pieces lead backward to their end over at most 16 pointers are read; decoding ends on every packet |
| table columns (`kernel/layout.h`) | `TableLayout` | the column widths sum exactly to what the table leaves them, cover every cell and share spare width by need, and the table is as wide as declared or natural, as far as there is room |
| address resolution (`kernel/arp.h`, `kernel/ip.h`) | `ArpCache`, `ArpIp`, `ArpRuns`, `ArpQueue`, `NetLink` | exactly which frames are believed and answered; where every mapping and every datagram of a run comes from, and exactly when a parked packet goes out |

## Conventions

Buffers that the C code overwrites are arrays, or sequence fields of an object where the source
keeps one global arena; a method says what it leaves as a function of what it found, and the
lemmas beside it are about that function.  Unsigned words are bounded subset types or carry
their `% 2^32` explicitly.  C division truncates; every division here has a nonnegative
dividend and a positive divisor, except in `CssMatch.NthMeans`, where the truncating operators
are written out.

Preconditions state the domain of the source: moduli that are odd, residues below the modulus,
`1 < m <= 2^4159` for big numbers (the shift of the long division has one guard limb, and 130
limbs at most), chunk-size lines of at most seven hexadecimal digits (so that no 32-bit offset
of the walker wraps), status codes that fit the `int` they are accumulated in, LZ4 input below
2^24 bytes, DNS packets of at most 65344 bytes (so that no 16-bit position wraps), column widths
that fit a `short`.

## Where the code and its description part

* Cutting a response into several `hr_feed` calls does change the walker's position in one case:
  a response without a body (204, 304, 1xx) that is chunked all the same and has a whole chunk
  stored behind its headers, a condition on the bytes alone.  `HttpResp.SplitsAgreeExactlyWhen`
  proves that this is the only case, `HttpResp.SplitsCanDiffer` gives one.
* `bn_modpow` and `bn_modpow_u32exp` answer 1 for modulus 1 and exponent 0
  (`Bignum.PowerExactlyWhen`, `Bignum.UnreducedOne`).
* The comment on `ip_send` says that a parked packet will go out unless a newer one takes its
  place.  It goes out exactly when its next hop answers at some event, nothing newer having
  been parked, and the hop having been asked for again whenever a request for another address
  had thrown it out of slot 0 of the ARP cache (`ArpQueue.LeavesExactlyWhen`; a run in which it
  was not is `ArpQueue.CanBeStranded`, and `ArpQueue.LateAnswerUnheard` shows the answer
  that comes too late).  Besides, some next hops never answer: 0, which `kernel/dhcp.h:287`
  leaves as the gateway when a lease names no router, and our own address.  No answer from
  those is believed, so that a packet parked for one of them never goes out
  (`ArpQueue.CanAnswerExactlyWhen`, `ArpQueue.DeadHopNeverLeaves`, `ArpQueue.NoGatewayExample`);
  for every other next hop one more request and its answer are enough
  (`ArpQueue.CanStillLeaveExactlyWhen`).
* The comment on `ARP_PENDING_TIMEOUT_TICKS` says that a pending mark stops counting after 2000
  ticks.  The stamp has 16 bits, so it counts again in the first 2000 of every 65536 ticks
  (`ArpCache.PendingExactlyWhen`, `ArpCache.CountsAgain`).
* `lz4_block_decode` also accepts a block that ends right behind a match, ignores the low
  nibble of the last token, and answers 0 for an empty output as for an error.  `Lz4.Tail` has
  these cases.

## Model

| member | source | states |
|---|---|---|
| `Limbs.IsZero` | kernel/ecc.h:85-89 | answers whether the number is zero |
| `Limbs.Compare` | kernel/ecc.h:90-95 | orders the numbers, not the limbs |
| `Limbs.AddRaw` | kernel/ecc.h:100-104 | result and carry together are the sum, also when the result aliases an operand |
| `Limbs.SubRaw` | kernel/ecc.h:106-114 | result and borrow together are the difference; the borrow says which operand was smaller |
| `Limbs.LimbBitIsBit` | kernel/ecc.h:194 | the bit the loops extract from the limbs is that bit of the number |
| `EccField.MulAddRow` | kernel/ecc.h:143-150 | one row of CIOS adds a times a limb, exactly, in n + 2 limbs |
| `EccField.ReduceRow` | kernel/ecc.h:152-161 | one reduction step divides by 2^32 exactly, after adding a multiple of the modulus |
| `EccField.MontMul` | kernel/ecc.h:136-163 | for every odd m, a and b below m: the result r is below m and r * 2^(32n) = a * b (mod m), whatever aliases what |
| `EccField.ModAdd` | kernel/ecc.h:164-170 | the sum modulo m, also when the carry leaves the limbs |
| `EccField.ModSub` | kernel/ecc.h:171-176 | the difference modulo m |
| `EccField.NewtonStep` | kernel/ecc.h:202 | each step squares the error, so the number of correct bits doubles |
| `EccField.NegInv32` | kernel/ecc.h:200-204 | five steps from any odd m give -m^-1 modulo 2^32 |
| `EccField.ComputeRR` | kernel/ecc.h:207-217 | doubling gives 2^(64n) mod m and, halfway, 2^(32n) mod m |
| `EccField.PrepareField` | kernel/ecc.h:219-229 | the context has the constants that multiplication and conversion require |
| `EccField.ToMont` | kernel/ecc.h:177 | the result represents the plain number |
| `EccField.FromMont` | kernel/ecc.h:178-181 | the result is the represented number |
| `EccField.ConversionsUndo` | kernel/ecc.h:177-181 | the two conversions undo each other on every number below m |
| `EccField.ElemMul` | kernel/ecc.h:135-163 | a Montgomery product represents the product of what its factors represent |
| `EccField.ModInv` | kernel/ecc.h:184-197 | the result represents a^(m-2) |
| `EccField.InverseWorks` | kernel/ecc.h:183-197 | for prime m and nonzero a that is the inverse of a |
| `Fermat.LittleTheorem` | kernel/ecc.h:183 | a^(p-1) = 1 modulo a prime that does not divide a |
| `Curve.SameAbscissa` | kernel/ecc.h:296-300 | curve points with one abscissa are equal or opposite, so the two comparisons cover all special cases |
| `Curve.SelfOpposite` | kernel/ecc.h:243 | a point is its own opposite exactly when y = 0, the case doubling sends to infinity |
| `Curve.AddOnCurve` | kernel/ecc.h:278-326 | the chord-and-tangent sum of curve points is a curve point |
| `Curve.AddCommutes` | kernel/ecc.h:278-326 | the sum does not depend on the order |
| `Jacobian.DoublingCorrect` | kernel/ecc.h:249-271 | for y and z nonzero the doubling formula has the tangent sum as affine image |
| `Jacobian.ComparisonCorrect` | kernel/ecc.h:287-296 | h vanishes exactly for equal abscissas, r exactly for equal ordinates |
| `Jacobian.AdditionCorrect` | kernel/ecc.h:301-323 | for different abscissas the addition formula has the chord sum as affine image |
| `EccPoint.SetInfinity` | kernel/ecc.h:236-238 | the result stands for infinity |
| `EccPoint.PtDouble` | kernel/ecc.h:241-274 | the image of the result is twice the image of the input, infinity and y = 0 included, in place too |
| `EccPoint.PtAdd` | kernel/ecc.h:278-326 | the image is the sum of the images in every case, and lies on the curve; out may be an operand |
| `EccScalar.SelectLimb` | kernel/ecc.h:331 | masking takes one word or the other whole |
| `EccScalar.PtSelect` | kernel/ecc.h:329-335 | the point stays, or becomes the source, by the mask alone |
| `EccScalar.TimesAdd` | kernel/ecc.h:337-351 | (m + n)P = mP + nP, what both loops rest on |
| `EccScalar.ScalarMul` | kernel/ecc.h:340-351 | double-and-always-add gives kP for every k of n limbs |
| `EccScalar.PtToAffine` | kernel/ecc.h:354-365 | fails exactly at infinity, else the plain affine coordinates |
| `EccScalar.LoadChecked` | kernel/ecc.h:370-386 | accepts exactly the coordinates of curve points |
| `EccScalar.BothAdd` | kernel/ecc.h:526-532 | adding G, Q or G + Q raises the matching coefficients of u1 G + u2 Q |
| `EccScalar.Shamir` | kernel/ecc.h:523-533 | one pass gives u1 G + u2 Q |
| `EccScalar.ReduceOnceBy` | kernel/ecc.h:536 | one conditional subtraction is the remainder, below twice the modulus |
| `EccScalar.InverseModOrder` | kernel/ecc.h:514-518 | w is the inverse of s modulo the order |
| `EccScalar.VerifySignature` | kernel/ecc.h:499-537 | accepts exactly when r and s are in range, the key is a curve point and the abscissa of u1 G + u2 Q is r modulo the order |
| `Aes.AesMul` | kernel/aes.h:92-100 | eight shift-and-add rounds give the product in GF(2^8) |
| `Aes.SboxInverts` | kernel/aes.h:26-63 | the second table inverts the first on all 256 bytes |
| `Aes.SboxMeans` | kernel/aes.h:26-43 | every entry is the affine map of FIPS 197 section 5.1.1 of the inverse of its index in GF(2^8), 0 standing for its own inverse |
| `Aes.RconDoubles` | kernel/aes.h:66-69 | the round constants are the powers of x |
| `Aes.SetKey` | kernel/aes.h:108-136 | for 16- and 32-byte keys the round keys are the words of the FIPS 197 section 5.2 expansion |
| `Aes.KeyTempBytes` | kernel/aes.h:116-129 | byte by byte: at the first word of a key length bytes are rotated, substituted and a power of x is added to the first; for the long key the middle word is substituted; other words are taken as they are |
| `Aes.ShiftRowsMeaning` | kernel/aes.h:150-161 | the flat permutation is s'[r, c] = s[r, (c + r) mod 4] |
| `Aes.AddRoundKey` | kernel/aes.h:140-142 | the block is added to the round key, the rest of the buffer is untouched |
| `Aes.SubBytes` | kernel/aes.h:143-145 | every byte of the block is substituted, the rest is untouched |
| `Aes.InvSubBytes` | kernel/aes.h:146-148 | every byte is substituted back |
| `Aes.ShiftRows` | kernel/aes.h:152-161 | rotating rows through one temporary is the permutation of the standard |
| `Aes.InvShiftRows` | kernel/aes.h:162-168 | the rotations the other way are the inverse permutation |
| `Aes.ShiftRowsInverts` | kernel/aes.h:152-168 | the two permutations undo each other |
| `Aes.MixColumns` | kernel/aes.h:170-179 | every column is mixed from its old bytes |
| `Aes.InvMixColumns` | kernel/aes.h:180-189 | every column is mixed with the inverse matrix |
| `Aes.MixColumnsInverts` | kernel/aes.h:170-189 | the two matrices are inverse over GF(2^8) |
| `Aes.EncryptBlock` | kernel/aes.h:195-206 | the block becomes its cipher (FIPS 197 section 5.1) |
| `Aes.DecryptBlock` | kernel/aes.h:208-219 | the block becomes its inverse cipher (section 5.3) |
| `Aes.CipherInverts` | kernel/aes.h:195-219 | for every key schedule and block the inverse cipher undoes the cipher |
| `Aes.CipherByBytes` | kernel/aes.h:195-206 | the cipher equals rounds written byte by byte: the mixed column of the substituted bytes of the shifted rows, added to the round key; the last round does not mix |
| `Aes.CbcEncrypt` | kernel/aes.h:230-238 | in place, the buffer becomes its CBC chain |
| `Aes.CbcDecrypt` | kernel/aes.h:239-248 | in place, the buffer becomes what the chain was made from |
| `Aes.CbcInverts` | kernel/aes.h:221-248 | decryption undoes encryption for every number of blocks and every IV |
| `Aes.CbcBlocks` | kernel/aes.h:230-238 | each block is the cipher of its plaintext added to the block before it, the first one to the IV |
| `Ghash.SerialIsProduct` | kernel/gcm.h:59-66 | the bit-serial loop of SP 800-38D section 6.3 adds up the multiples its bits select |
| `Ghash.ProductShift` | kernel/gcm.h:67-77 | multiplying by x commutes with the product |
| `Ghash.ProductLinear` | kernel/gcm.h:67-77 | the product is linear in the other factor |
| `Ghash.ProductNibble` | kernel/gcm.h:71-75 | Horner's rule for one nibble |
| `Ghash.ShiftFourIs` | kernel/gcm.h:129-132 | the shift by four with the table `last4` is multiplication by x^4, for every element |
| `Ghash.BlockRoundTrip` | kernel/gcm.h:83-89 | an element stored as bytes is read back |
| `Ghash.BuildTable` | kernel/gcm.h:91-109 | the tables hold the product of H with each of the 16 nibbles |
| `Ghash.MultH` | kernel/gcm.h:112-138 | in place, y becomes the bit-serial product of y and H |
| `Ghash.GhashSplit` | kernel/gcm.h:140-153 | GHASH over two stretches is GHASH over both |
| `GhashLaws.TimesXCoefs` | kernel/gcm.h:59-77 | multiplying by x moves every coefficient up by one, and x^128 is 1 + x + x^2 + x^7 |
| `GhashLaws.MulLinear` | kernel/gcm.h:59-77 | multiplying a block by the hash key is linear |
| `GhashLaws.GhashIsPolynomial` | kernel/gcm.h:140-153 | GHASH of blocks is the polynomial in the hash key whose coefficients are the blocks, the start value counting as one more |
| `Ghash.Absorb` | kernel/gcm.h:143-153 | y becomes GHASH over the data padded with zeros, for every length |
| `Gcm.IncAddsOne` | kernel/gcm.h:165-175 | the last four bytes, as a big-endian number, go up by one modulo 2^32; the first twelve stay |
| `Gcm.Inc32` | kernel/gcm.h:165-175 | in place, the counter becomes what the carry chain says |
| `Gcm.FirstBlock` | kernel/gcm.h:228-230 | the block of the tag mask has the IV and the number 1; the first one of the data has the IV and the number 2 |
| `Gcm.CountDetermines` | kernel/gcm.h:165-175 | a counter block is determined by its first twelve bytes and its number |
| `Gcm.CtrApply` | kernel/gcm.h:181-192 | in place, the data becomes GCTR of section 6.5, for every length |
| `Gcm.StreamIs` | kernel/gcm.h:181-192 | byte k is added to byte k modulo 16 of the cipher of the block with the counter's fixed part and its number plus k / 16, modulo 2^32 |
| `Gcm.GctrTwice` | kernel/gcm.h:177-192 | applying the key stream twice gives the data back |
| `Gcm.ThreePieces` | kernel/gcm.h:206-209 | absorbing data, ciphertext and lengths separately is the one GHASH of the tag |
| `Gcm.TagInputRead` | kernel/gcm.h:206-209 | GHASH runs over the associated data, zeros to a multiple of 16, the ciphertext, zeros again, and the lengths |
| `Gcm.LengthsWritten` | kernel/gcm.h:156-163 | the halves of the last block are the two lengths in bits, big-endian |
| `Gcm.ComputeTag` | kernel/gcm.h:196-216 | the tag of section 7.1 |
| `Gcm.TagStream` | kernel/gcm.h:196-216 | the tag is that GHASH under the cipher of the zero block, masked by the cipher of the block with the IV and the number 1 |
| `Gcm.Encrypt` | kernel/gcm.h:223-233 | buffer and tag are those of authenticated encryption |
| `Gcm.SealStream` | kernel/gcm.h:228-231 | byte k of the ciphertext is the plaintext byte plus byte k modulo 16 of the cipher of the block with the IV and the number k / 16 + 2, which is never the block that masks the tag |
| `Gcm.SameTag` | kernel/gcm.h:251-253 | the accumulated difference is zero exactly for equal tags |
| `Gcm.Decrypt` | kernel/gcm.h:244-261 | accepts exactly the right tag; otherwise the buffer is unchanged |
| `Gcm.OpenStream` | kernel/gcm.h:255-259 | the same stream comes off again |
| `Gcm.OpenUndoesSeal` | kernel/gcm.h:218-261 | what was sealed is accepted and opened to the plaintext, for every length |
| `HttpHeaders.HeaderValue` | kernel/httpresp.h:68-77 | finds the value of exactly the named header, in any case |
| `HttpHeaders.CopyValue` | kernel/httpresp.h:79-84 | the value up to its line end, cut to the buffer, without trailing blanks |
| `HttpHeaders.ValueTokens` | kernel/httpresp.h:103-120 | the flags are those of the list of whole tokens of the value |
| `HttpHeaders.DecimalU32` | kernel/httpresp.h:139-140 | the decimal number modulo 2^32 |
| `HttpHeaders.ParseLine` | kernel/httpresp.h:137-155 | each header line has the effect of its name |
| `HttpHeaders.ParseHeaders` | kernel/httpresp.h:123-158 | the effects of all lines in order, and the status code |
| `HttpHeaders.ChunkedExactlyWhen` | kernel/httpresp.h:142-148 | the body is chunked exactly when some transfer-encoding line has chunked as its last token |
| `HttpHeaders.EncodedExactlyWhen` | kernel/httpresp.h:145-150 | the body is marked encoded exactly when some line names a coding that cannot be undone, or applies another one on top of chunked |
| `HttpResp.SevenDigits` | kernel/httpresp.h:176-184 | a size of seven digits keeps every offset of the walker below 2^32 |
| `HttpResp.WalkPasses` | kernel/httpresp.h:170-188 | the walker stands behind whole chunks only |
| `HttpResp.WalkResumes` | kernel/httpresp.h:170-188 | walking on from there sees what walking from the start sees |
| `HttpResp.WalkDoneGrows` | kernel/httpresp.h:182-183 | once the end is seen, more bytes do not change it |
| `HttpResp.FeedStepIs` | kernel/httpresp.h:193-223 | one call is storing, looking for the headers, looking for the end, and keeps the state sound |
| `HttpResp.FeedAllIs` | kernel/httpresp.h:193-223 | the state after any calls is a function of all bytes and of where the first cut behind the headers fell |
| `HttpResp.SplitsAgree` | kernel/httpresp.h:193-223 | however the bytes are cut, all fields but the walker's position agree with one call, and the position too outside that one case |
| `HttpResp.SplitsAgreeExactlyWhen` | kernel/httpresp.h:216-221 | all ways of cutting agree if and only if the bytes are not a complete header block that announces chunks under a status without a body, with a whole chunk behind it |
| `HttpResp.ChunksWithoutBodyMeans` | kernel/httpresp.h:216-221 | those bytes are exactly the ones that make one call move the walker of a response without a body |
| `HttpResp.SplitsCanDiffer` | kernel/httpresp.h:216-221 | a 204 response with one chunk for which they do not |
| `HttpResp.UnwrapPassed` | kernel/httpresp.h:235-252 | unwrapping is the data of the chunks passed, then the unwrapping of the rest |
| `HttpResp.UnwrapIsPassed` | kernel/httpresp.h:182-183 | after a zero or unreadable size line the body is exactly the chunks the walker passed |
| `HttpResp.HexRoundTrip` | kernel/httpresp.h:176-181 | a size written in hexadecimal is read back |
| `HttpResp.DecodeEncoded` | kernel/httpresp.h:228-259 | what the chunked coding of RFC 7230 section 4.1 wrote is walked to its end and unwrapped to the data |
| `HttpResp.Response.WalkChunks` | kernel/httpresp.h:170-188 | moves the position and sets complete as the walk over the stored bytes says |
| `HttpResp.Response.Feed` | kernel/httpresp.h:193-223 | the whole new state is that of the call on values; the answer is the number of bytes stored |
| `HttpResp.Response.UnwrapChunk` | kernel/httpresp.h:236-251 | one chunk is copied down; the write cursor stays at or below the read cursor, and the rest of the buffer is still to be read |
| `HttpResp.Response.UnwrapInPlace` | kernel/httpresp.h:233-253 | the buffer holds the unwrapping of what it held, and nothing before the body has changed |
| `HttpResp.Response.Finish` | kernel/httpresp.h:228-259 | the page in the buffer is the body of the response; a second call changes nothing |
| `HttpResp.FinishedPage` | kernel/httpresp.h:225-259 | after any calls that completed a chunked body, the page is the data of exactly the chunks passed |
| `HttpMessage.DecimalRoundTrip` | kernel/httpresp.h:140 | a number written in decimal is read back, whatever follows it |
| `HttpMessage.ListRoundTrip` | kernel/httpresp.h:103-120 | a comma-separated list is read as its tokens, without parameters |
| `HttpMessage.FieldRead` | kernel/httpresp.h:68-77 | a field answers to its own name, in any case, and to no other |
| `HttpMessage.LengthField` | kernel/httpresp.h:138-141 | a length written in decimal is the length read |
| `HttpMessage.CodingField` | kernel/httpresp.h:142-146 | a list of codings that ends in chunked, in any case, makes the body chunked |
| `HttpMessage.LocationField` | kernel/httpresp.h:151-152 | the target of a redirect is kept whole when it fits |
| `HttpMessage.HeadRead` | kernel/httpresp.h:123-158 | a header block that was written has the status written and the effects of its fields in order |
| `HttpMessage.HeadEnds` | kernel/httpresp.h:202-206 | the header block ends where it was written to end, whatever the body is |
| `HttpMessage.BufferKeeps` | kernel/httpresp.h:193-223 | after any calls: the first 2^18 bytes are kept, the marks for lost bytes and for a length that cannot fit are set exactly then, the headers are done exactly when a blank line is in the buffer, and a response without a body is complete |
| `HttpMessage.MessageState` | kernel/httpresp.h:193-223 | the state after any calls that brought a written header block and some body |
| `HttpMessage.DeclaredPage` | kernel/httpresp.h:218-256 | after any calls a response with a declared length is complete exactly when that many bytes are behind its header block, and its page is exactly those bytes |
| `HttpMessage.UndeclaredPage` | kernel/httpresp.h:254-256 | without a declared length it is never complete, and its page is everything behind the header block |
| `HttpMessage.DeclaredRoundTrip` | kernel/httpresp.h:193-259 | a response written with its length is complete after its last byte and its page is the body, however the bytes were cut |
| `HttpMessage.ChunkedRoundTrip` | kernel/httpresp.h:193-259 | the same for a chunked one: the page is the data of its chunks |
| `HttpMessage.ChunkedNoSooner` | kernel/httpresp.h:167-188 | while a byte of the last-chunk line is missing it is not complete |
| `DomTree.AppendTree` | kernel/dom.h:385-398 | a new last child keeps the arena a tree with consistent links |
| `DomTree.ChildrenEnumerated` | kernel/dom.h:120-128 | following first and next lists every child of a node once, in order |
| `DomArena.AddElem` | kernel/dom.h:513-520 | a new element keeps tree and ownership |
| `DomArena.AddText` | kernel/dom.h:440-447 | a new text node owns the byte behind all others |
| `DomArena.GrowText` | kernel/dom.h:436-449 | a text node that ends at the end of the pool may take the next byte |
| `DomArena.AddValue` | kernel/dom.h:697-712 | an attribute value owns the bytes it added |
| `DomArena.Rewind` | kernel/dom.h:533 | giving a dropped tag's attributes and values back takes nothing from anyone |
| `DomArena.AdoptAttrs` | kernel/dom.h:532-539 | html and body may take the attributes that lie at the end |
| `DomTags.FindMeans` | kernel/dom.h:503-510 | the search answers i exactly when i is the innermost such element with no scope boundary above it |
| `DomTags.FindItemMeans` | kernel/dom.h:549-563 | the walk of a list item answers i exactly when i is the nearest item with no special element other than address, div and p inside it |
| `DomTags.FindHeadingMeans` | kernel/dom.h:612-619 | the end tag of a heading answers i exactly when i is the nearest open heading, of any level, in scope |
| `DomTags.FindPlainMeans` | kernel/dom.h:638-642 | the last walk of an end tag answers i exactly when i is the nearest element of its name with no special one inside |
| `DomTags.PopToContextMeans` | kernel/dom.h:568-583 | a table part pops down to n exactly when no popped element is a context for it and what is left on top is one, or only two are left |
| `DomTags.ListsNest` | kernel/dom.h:549-556 | a li closes nothing at or below an open ul or ol in which no li is open |
| `DomTags.DefinitionsNest` | kernel/dom.h:557-563 | the same for dd and dt in a dl |
| `DomTags.ItemsAreSiblings` | kernel/dom.h:549-563 | without a list between, an item closes the one before it and all that is open inside |
| `DomTags.BlocksCloseP` | kernel/dom.h:525-547 | the start tag of a block closes the p open in button scope |
| `DomTags.HeadingsAreSiblings` | kernel/dom.h:548 | a heading closes a heading that is the current element |
| `DomTags.LinksNeverNest` | kernel/dom.h:566-567 | a link or button closes the one in scope |
| `DomTags.OptionsAreSiblings` | kernel/dom.h:564-565 | options and their groups close what is open of them on top |
| `DomTags.RowsAreSiblings` | kernel/dom.h:571-577 | a row closes the row before it down to its table or row group |
| `DomTags.UnmatchedClosesNothing` | kernel/dom.h:598-643 | an end tag without an open element of its name closes nothing, unless it ends a heading |
| `DomTags.EndClosesInScope` | kernel/dom.h:598-643 | an end tag closes the innermost element of its name in its scope |
| `DomTags.MarkupStaysInside` | kernel/dom.h:630-635 | the end tag of text markup never closes a table, cell or caption it stands in |
| `DomTags.EndItemStaysInList` | kernel/dom.h:610 | the end tag of an item never closes the list it stands in |
| `DomTags.ButtonKeepsP` | kernel/dom.h:525 | a block inside a button does not close a p around it |
| `DomTags.EndPartStaysInTable` | kernel/dom.h:620-624 | the end tag of a table part never closes the table it stands in |
| `DomTags.OthersStopAtSpecial` | kernel/dom.h:638-642 | an end tag of any other name never closes a special element it does not name |
| `DomTags.LeftRooted` | kernel/dom.h:546-588 | no start tag closes html, head or body |
| `DomTags.EndLeftRooted` | kernel/dom.h:598-643 | no end tag closes html, head or body |
| `DomBuild.Dom.constructor` | kernel/dom.h:402-411 | the blank document, with the head open |
| `DomBuild.PageMeans` | kernel/dom.h:120-145 | a valid document: parents before children, links listing every child once, the open elements a path of 2 to 192, texts disjoint in the pool |
| `DomBuild.StackKept` | kernel/dom.h:139-142 | whatever keeps the nodes keeps the path of open elements |
| `DomBuild.Dom.FindOpen` | kernel/dom.h:503-510 | the loop finds what the search on the open tags says |
| `DomBuild.Dom.EnterBody` | kernel/dom.h:413-419 | the body is the current element afterwards |
| `DomBuild.Dom.InsertElem` | kernel/dom.h:513-520 | the element, with its attributes, is the last child of the current one, open if pushed; a full arena changes nothing |
| `DomBuild.Dom.TextByte` | kernel/dom.h:431-449 | the byte goes to the end of the pool and to exactly the node the sink names; a full arena changes neither |
| `DomBuild.SunkenGrows` | kernel/dom.h:428-449 | the first byte of a text chooses its node and all others follow it there |
| `DomBuild.Dom.InPre` | kernel/dom.h:421-427 | whether some open element preserves blanks |
| `DomBuild.Dom.AddText` | kernel/dom.h:451-483 | blanks in the head are dropped, other text opens the body and becomes its decoded bytes at the end of the pool and the sink |
| `DomBuild.Dom.CloseImplied` | kernel/dom.h:546-588 | exactly the elements the start tag implies closed are closed |
| `DomBuild.Dom.Start` | kernel/dom.h:529-596 | nodes, attributes, pool, stack and marks after a start tag, for every tag and state |
| `DomBuild.Dom.CloseEnd` | kernel/dom.h:610-642 | exactly the elements the end tag closes are closed |
| `DomBuild.Dom.End` | kernel/dom.h:598-643 | nodes, stack and marks after an end tag, for every tag and state |
| `DomParse.PutValue` | kernel/dom.h:700-709 | the pool grows by the decoded value |
| `DomParse.OneAttr` | kernel/dom.h:673-694 | name, value and end of the attribute at any position |
| `DomParse.KeepAttr` | kernel/dom.h:696-713 | the attribute lies at the end of its arena and owns its value |
| `DomParse.ParseAttrs` | kernel/dom.h:664-715 | all attributes of a tag; those of the table are kept in order, nothing below the marks changes |
| `DomParse.FindClose` | kernel/dom.h:649-660 | the first matching end tag at or after a position, or the end |
| `DomParse.RawElement` | kernel/dom.h:785-806 | the contents up to the matching end tag are text, then that end tag |
| `DomParse.SkipComment` | kernel/dom.h:732-740 | the end of a comment, the two short forms included |
| `DomParse.EndTag` | kernel/dom.h:747-763 | an end tag is applied, anything else behind `</` is skipped |
| `DomParse.StartTag` | kernel/dom.h:766-806 | name, attributes, the tag's effect, and what it encloses |
| `DomParse.Markup` | kernel/dom.h:728-806 | one token of markup does what the token at that place means |
| `DomParse.Parse` | kernel/dom.h:717-809 | for every byte string it ends, with every document on the way valid; the documents are what the tokens, one after the other, make of a blank one: all of them if no arena filled up, else those before the token in which one did, and what they made is kept |
| `DomMarkup.EncodedRead` | kernel/dom.h:369-382 | every code point is decoded from its UTF-8 bytes |
| `DomMarkup.PlainText` | kernel/dom.h:451-483 | text of printable characters without markup is kept as it is |
| `DomMarkup.PlainValue` | kernel/dom.h:700-709 | and so is an attribute value |
| `DomMarkup.RawKept` | kernel/dom.h:793-797 | raw text without carriage returns is kept byte by byte |
| `DomMarkup.RawLineEnd` | kernel/dom.h:795 | a line end of two bytes in raw text is one line feed |
| `DomMarkup.CommentMeans` | kernel/dom.h:736-738 | a comment ends behind the first end mark of its text |
| `DomMarkup.CommentOpen` | kernel/dom.h:736-737 | and at the end of the page if it has none |
| `DomMarkup.NameRead` | kernel/dom.h:767-772 | the name of a tag is read up to its end, in any case |
| `DomMarkup.AttrRead` | kernel/dom.h:673-694 | a quoted attribute is read back: name in lower case, cut to 15 bytes, value, and place behind it |
| `DomMarkup.AttrsRead` | kernel/dom.h:664-715 | all attributes of a tag are read back, in order, with the mark for a tag that closes itself |
| `DomReadBack.TextToken` | kernel/dom.h:721-727 | text becomes one new text node |
| `DomReadBack.StartToken` | kernel/dom.h:766-777 | the start tag of an element that closes nothing becomes one new open element with its attributes |
| `DomReadBack.EndToken` | kernel/dom.h:747-758 | the end tag of the current element closes it and nothing else |
| `DomReadBack.ForestRead` | kernel/dom.h:717-809 | the markup of a forest is used up exactly and adds exactly the nodes of the forest |
| `DomReadBack.DocumentRead` | kernel/dom.h:717-809 | a body and a forest of such elements up to 190 deep, written as markup: unless an arena fills up the document read is exactly that forest |
| `CssMatch.FindClass` | kernel/css.h:949-958 | whether some word of the class attribute has the hash |
| `CssMatch.WordsAre` | kernel/css.h:952-956 | the words compared are exactly the longest stretches without a blank |
| `CssMatch.FindPrev` | kernel/css.h:943-948 | the nearest element sibling before the node, or none |
| `CssMatch.EarlierMeans` | kernel/css.h:1035 | going from sibling to sibling before reaches exactly the element children of the same parent before the node; the children of the document node have none |
| `CssMatch.AncestorMeans` | kernel/css.h:939-942 | going from parent to parent reaches exactly the elements a chain of element parents leads to |
| `CssMatch.CountSiblings` | kernel/css.h:1003-1008 | the element's position and the number of its element siblings |
| `CssMatch.CountIs` | kernel/css.h:1004-1007 | the count is the number of element children before a place |
| `CssMatch.NthMeans` | kernel/css.h:1012-1016 | with truncating division, exactly the positions a * k + b for natural k |
| `CssMatch.CompMatches` | kernel/css.h:985-1027 | whether the element satisfies every part of the compound |
| `CssMatch.AcceptsStep` | kernel/css.h:1028-1038 | a chain for a selector is a last compound and a chain for the rest across its combinator |
| `CssMatch.MatchFrom` | kernel/css.h:1028-1038 | accepts exactly when some chain of elements satisfies every compound and combinator |
| `CssIndex.Index.constructor` | kernel/css.h:508-515 | all buckets empty |
| `CssIndex.FileOther` | kernel/css.h:672-681 | filing a rule leaves the other buckets alone |
| `CssIndex.FileOwn` | kernel/css.h:680 | the filed rule becomes the head of its own bucket |
| `CssIndex.Index.BucketAdd` | kernel/css.h:672-681 | every bucket still holds exactly the rules with its key, and the rule keeps its selector and order |
| `CssIndex.AcceptedVisited` | kernel/css.h:1593-1604 | a rule accepted for an element lies in a bucket that is visited for it |
| `CssIndex.Index.Collect` | kernel/css.h:1579-1585 | the list grows by the first accepted rules of the bucket, in its order, while there is room; overflow is marked exactly when it was full and a rule was left to look at |
| `CssIndex.Index.Gather` | kernel/css.h:1592-1604 | the list is the first 192 accepted rules of the visited buckets one after the other, universal, tag, class words, id, and overflow is marked exactly when it was full before the last of their rules |
| `CssIndex.ListAgrees` | kernel/css.h:1592-1604 | everything on that list is accepted, and unless it was full everything accepted is on it |
| `CssIndex.KeysVisited` | kernel/css.h:1593-1604 | the buckets visited in that order are the universal one and those of the tag, of each class word and of the id |
| `CssIndex.Index.Sort` | kernel/css.h:1606-1611 | a permutation in ascending (spec, order) |
| `CssIndex.Index.MatchedRules` | kernel/css.h:1592-1611 | that list in ascending (spec, order), with the same overflow mark |
| `Bignum.UsedLimbs` | kernel/bignum.h:82-87 | all limbs from there on are zero, the one below is not |
| `Bignum.Sub` | kernel/bignum.h:102-109 | the exact difference, aliasing included |
| `Bignum.AddRow` | kernel/bignum.h:122-134 | one row is added exactly and its last carry stays inside the buffer |
| `Bignum.MulWide` | kernel/bignum.h:116-136 | the exact product in 260 limbs |
| `Bignum.WideBitLength` | kernel/bignum.h:157-166 | the highest set bit, or -1 for zero |
| `Bignum.BitLength` | kernel/bignum.h:172-179 | the number of significant bits |
| `Bignum.DivisionStep` | kernel/bignum.h:195-211 | one more bit of the dividend keeps the remainder |
| `Bignum.WorkingWidth` | kernel/bignum.h:186-193 | used(m) + 1 limbs, at most 130, hold twice the remainder and a bit |
| `Bignum.ModWide` | kernel/bignum.h:181-213 | the remainder, though only the working width is shifted; the result may alias the modulus |
| `Bignum.MulMod` | kernel/bignum.h:217-221 | the product modulo m |
| `Bignum.ModPow` | kernel/bignum.h:329-355 | the power modulo m, or 1 for exponent 0, for exponents of the full width |
| `Bignum.ModPow32` | kernel/bignum.h:230-266 | the same for one-word exponents |
| `Bignum.PowerExactlyWhen` | kernel/bignum.h:331-332 | that is the power modulo m exactly when m > 1 or the exponent is not 0 |
| `Bignum.UnreducedOne` | kernel/bignum.h:331-332 | modulus 1 and exponent 0 answer 1 |
| `Bignum.RoutinesAgree` | kernel/bignum.h:230-355 | run side by side on a one-word exponent the two routines leave the same limbs |
| `Bignum.AddMod` | kernel/bignum.h:290-300 | the sum modulo m |
| `Bignum.SubMod` | kernel/bignum.h:310-318 | the difference modulo m |
| `BignumBytes.FromBytes` | kernel/bignum.h:51-61 | the big-endian value of the bytes that fit |
| `BignumBytes.ToBytes` | kernel/bignum.h:67-74 | exactly that many bytes of the number, zero-padded or cut |
| `BignumBytes.BytesRoundTrip` | kernel/bignum.h:51-74 | bytes read and written at the same length come back |
| `HangulIme.SplitUndoesSimple` | kernel/hangul_ime.h:129-160 | splitting a tentative final hands back the consonant that was added |
| `HangulIme.SplitUndoesCombine` | kernel/hangul_ime.h:104-160 | splitting a combined final hands back the pair that formed it |
| `HangulIme.Utf8RoundTrip` | kernel/font_ko.h:72-85 | the bytes of a code point decode to it |
| `HangulIme.BackspaceRemovesCharacter` | kernel/font_ko.h:91-99 | deleting the last character removes exactly its three bytes |
| `HangulIme.FirstTwo` | kernel/hangul_ime.h:249-318 | a consonant and a vowel after any complete syllable commit that syllable whole |
| `HangulIme.TypeSyllable` | kernel/hangul_ime.h:238-320 | the keys of one syllable leave it in the cell |
| `HangulIme.TypingIsInverse` | kernel/hangul_ime.h:216-320 | the keys of any sentence of modern syllables, then a commit, append its UTF-8 |
| `HangulIme.OtherKeyCompletes` | kernel/hangul_ime.h:242-247 | the keys of any sentence and a key off the layout append its UTF-8 and empty the cell |
| `HangulBlocks.ConsonantOn` | kernel/hangul_ime.h:249-286 | a consonant becomes a final of the block if that takes it, else the block is written and the consonant stands alone |
| `HangulBlocks.VowelOnVowel` | kernel/hangul_ime.h:298-307 | a vowel combines with a single one before it, else the block is written and the vowel starts one with the silent initial |
| `HangulBlocks.VowelOnFinal` | kernel/hangul_ime.h:308-318 | a vowel behind a final takes its last consonant as initial, and the rest of the block is written |
| `HangulBlocks.TypedIsWritten` | kernel/hangul_ime.h:238-320 | for every string of keys on the layout, ended by one that is not: what is written are blocks that hold exactly the jamo typed, in order, with the silent initial only before an orphan vowel |
| `HangulBlocks.OneDivision` | kernel/hangul_ime.h:238-320 | no other blocks hold those jamo, so nothing else could have been written |
| `HangulIme.AppendedIs` | kernel/hangul_ime.h:207-214 | when the buffer is short, the first syllables that fit |
| `HangulIme.Ime.EmitUtf8` | kernel/hangul_ime.h:207-214 | three bytes are appended, or nothing when there is no room |
| `HangulIme.Ime.Commit` | kernel/hangul_ime.h:216-228 | the pending code point is appended and the cell is empty |
| `HangulIme.Ime.FeedKey` | kernel/hangul_ime.h:238-320 | cell and text after any key in any state |
| `HangulIme.Ime.TypeAll` | kernel/hangul_ime.h:216-320 | the whole sentence typed into the buffer |
| `HangulIme.Ime.Backspace` | kernel/hangul_ime.h:327-341 | the cell loses its last part; the answer is whether there was one |
| `HangulIme.BackspaceUndoes` | kernel/hangul_ime.h:327-341 | after a key that wrote nothing, exactly what that leaves: the cell before the key if it filled an empty part, else that cell without the part it completed |
| `Lz4.MatchRepeats` | kernel/lz.h:31-32 | every byte of a match, overlapping or not, equals the one `off` before it |
| `Lz4.DecodesBlock` | kernel/lz.h:15-35 | the serialisation of valid sequences decodes to their expansion |
| `Lz4.DecodedIsBlock` | kernel/lz.h:15-35 | whatever decodes is such a serialisation |
| `Lz4.DecodesExactlyBlocks` | kernel/lz.h:15-35 | both directions: exactly the valid blocks, exactly their expansions |
| `Lz4.SequenceLayout` | kernel/lz.h:19-29 | the bytes of a sequence: the token with both lengths, 15 meaning extended, the literals, the offset with its low byte first |
| `Lz4.ExtIs` | kernel/lz.h:21 | an extension is v / 255 bytes of 255 and the byte v modulo 255 |
| `Lz4.Decode` | kernel/lz.h:15-35 | on every input it ends within both buffers and returns the length of the expansion, or 0 |
| `DnsName.EncodeName` | kernel/dns.h:85-103 | the wire form of the labels, for every host |
| `DnsName.SkipName` | kernel/dns.h:118-132 | the bytes up to the end of the name, 0 if the packet ends inside it |
| `DnsName.DecodeName` | kernel/dns.h:139-166 | the text of the name at any position of any packet, or failure; pointers end after 16 hops |
| `DnsName.ReadExactlyWhen` | kernel/dns.h:139-166 | a name is read exactly when pieces lead from its place to a zero byte over at most that many pointers, each two bytes, 0xC0 + q / 256 and q modulo 256, to an earlier q; it is then the labels of the pieces in order |
| `DnsName.ChainReads` | kernel/dns.h:118-166 | such a name is skipped behind the zero byte or the pointer of its first piece |
| `DnsName.CompressedReadBack` | kernel/dns.h:145-151 | labels and a pointer to labels on the wire before it are read as all those labels, and skipped behind the pointer |
| `DnsName.DecodedSkips` | kernel/dns.h:118-166 | a name that decodes can be skipped |
| `DnsName.WireReadBack` | kernel/dns.h:85-166 | labels on the wire are read back wherever they stand |
| `DnsName.LabelsJoin` | kernel/dns.h:85-103 | the labels of a host joined again are the host in lower case |
| `DnsName.NameRoundTrip` | kernel/dns.h:85-166 | a proper host encoded anywhere decodes to itself in lower case, and skipping consumes exactly its bytes |
| `TableLayout.SinglePass` | kernel/layout.h:1403-1410 | each column has the largest demand of its single cells |
| `TableLayout.SinglesAttained` | kernel/layout.h:1406-1409 | no column is wider than the widest cell that stands in it alone |
| `TableLayout.SpanningPass` | kernel/layout.h:1411-1419 | the missing width of each spanning cell is spread over its columns, remainder last |
| `TableLayout.SpanningFair` | kernel/layout.h:1417-1418 | a spanning cell widens its own columns only, to exactly what it wants, by amounts that differ by less than their number |
| `TableLayout.WidenedCovers` | kernel/layout.h:1403-1419 | every cell, spanning or not, fits the columns it stands in |
| `TableLayout.Totals` | kernel/layout.h:1420-1426 | maxima at least minima, fixed widths first, and the two sums |
| `TableLayout.ChosenMeans` | kernel/layout.h:1430-1435 | the table is as wide as declared, or all there is for percentages, or naturally wide, as far as that lies between what the columns need and what is available; need comes first |
| `TableLayout.TakePercent` | kernel/layout.h:1437-1440 | percentage columns take their share |
| `TableLayout.SharesFit` | kernel/layout.h:1443-1446 | shares rounded down never exceed what is shared out |
| `TableLayout.SharesNearlyAll` | kernel/layout.h:1443-1446 | and fall short of it by less than one each |
| `TableLayout.RawFits` | kernel/layout.h:1441-1447 | in each branch no column is below its minimum and together they do not exceed the target |
| `TableLayout.Distribute` | kernel/layout.h:1441-1447 | the widths of the branch taken |
| `TableLayout.Correct` | kernel/layout.h:1448-1451 | the last column takes what rounding left |
| `TableLayout.WidthsConserved` | kernel/layout.h:1441-1451 | in every branch the widths sum exactly to the target and none is below its minimum |
| `TableLayout.RoomIsShared` | kernel/layout.h:1444-1446 | between minima and natural widths every column but the last gets, rounded down, the part of the spare width that its room is of all room; the last less than a pixel a column more |
| `TableLayout.EqualColumns` | kernel/layout.h:1441-1451 | columns with equal minima and equal natural widths get the same, except for rounding in the last |
| `TableLayout.NaturalWidths` | kernel/layout.h:1443-1448 | without a declared width a table that has the room gives every column its natural width |
| `TableLayout.ColumnWidths` | kernel/layout.h:1398-1453 | the whole step: exact sum, minima, every cell covered, and the recomputed table width is the chosen one |
| `ArpCache.Written` | kernel/arp.h:133-136 | writing an entry keeps one slot for each address and changes what is known of two addresses at most |
| `ArpCache.RequestedIs` | kernel/arp.h:101-136 | a request makes its address asked for, forgets the one it throws out of slot 0, and touches no other |
| `ArpCache.PendingExactlyWhen` | kernel/arp.h:90-94 | a request d ticks ago still counts exactly when d modulo 65536 is below 2000 |
| `ArpCache.CountsAgain` | kernel/arp.h:90-94 | a request that no longer counts after 2000 ticks counts again after 65536, another address having been asked for in between |
| `ArpIp.ReadBack` | kernel/arp.h:111-131 | the fields written into a frame are those read from it |
| `ArpIp.FrameLayout` | kernel/arp.h:118-131 | the layout of RFC 826 on Ethernet, byte by byte, addresses with their high byte first |
| `ArpIp.RepliesExactlyWhen` | kernel/arp.h:185-208 | a frame is taken for a reply to us exactly when its 42 bytes are those that answer our address, from a unicast sender whose own address is not 0, not broadcast and, once we have one, not ours |
| `ArpIp.AsksExactlyWhen` | kernel/arp.h:185-225 | a frame is taken for a question to us exactly when its 42 bytes are those that ask for our address, once we have one, from such a sender |
| `ArpIp.HopBySubnet` | kernel/ip.h:131-137 | with h host bits an address is reached directly exactly when it agrees with ours above them, else through the gateway |
| `ArpIp.StepIs` | kernel/arp.h:175-256 | every request, frame and send moves each address between unknown, asked for and resolved exactly as stated, and keeps one slot for each |
| `ArpRuns.OneSlotAlways` | kernel/arp.h:101-109 | no run gives an address two slots |
| `ArpRuns.KeptExactlyWhen` | kernel/arp.h:132-136 | a step keeps a mapping exactly when it neither asks for that address nor throws it out of slot 0 |
| `ArpRuns.ChangeNeedsRequest` | kernel/arp.h:202-204 | in any run a mapping that changed was first disturbed by a request of our own |
| `ArpRuns.AskedBecause` | kernel/arp.h:132-136 | an address asked for was asked for by one of our requests and has waited since |
| `ArpRuns.KnownBecause` | kernel/arp.h:201-250 | every mapping was taught by a reply to us while we waited, or by a neighbour's question while it was unknown, and has stood since |
| `ArpRuns.StepAccounted` | kernel/ip.h:175-229 | a reply from its next hop sends the parked packet, a send goes out or parks, nothing else touches the queue or sends a datagram |
| `ArpRuns.RightlyAddressed` | kernel/ip.h:190-229 | every datagram goes to everyone or to the address on record for its next hop; a parked one only to the neighbour that just answered |
| `ArpRuns.SentAtMostOnce` | kernel/ip.h:206-229 | in any run every datagram carries the packet of one send, and no send's packet leaves twice |
| `ArpQueue.StopsWaitingExactlyWhen` | kernel/ip.h:202-213 | one step: the next hop of the parked packet stays asked for, except when it is thrown out of slot 0 and nothing is parked in its place |
| `ArpQueue.QueuedExactlyWhen` | kernel/ip.h:202-229 | nothing newer being parked, a packet is in the queue exactly while no answer from its next hop was believed, and the hop is asked for exactly when it was asked for again after each time it was thrown out |
| `ArpQueue.LeavesAtExactlyWhen` | kernel/ip.h:221-229 | the packet parked by one event leaves at another exactly when that is an answer from its next hop, nothing newer was parked, the hop was kept asked for, and no earlier answer met the same |
| `ArpQueue.LeavesExactlyWhen` | kernel/ip.h:171-174 | in any run a parked packet goes out exactly when such an answer comes |
| `ArpQueue.CanAnswerExactlyWhen` | kernel/arp.h:195-210 | some frame answers for an address exactly when that is not 0, not broadcast and not our own |
| `ArpQueue.DeadHopNeverLeaves` | kernel/ip.h:131-137 | a packet parked for any other next hop goes out in no run |
| `ArpQueue.CanStillLeaveExactlyWhen` | kernel/ip.h:171-174 | a packet in the queue goes out in some continuation exactly when its next hop can answer |
| `ArpQueue.NeverGoesOut` | kernel/ip.h:175-213 | a first send through next hop 0 or our own address parks its packet for good |
| `ArpQueue.DeadHops` | kernel/ip.h:131-137 | without a gateway the next hop of every other network is 0; our own address is its own next hop |
| `ArpQueue.NoGatewayExample` | kernel/ip.h:171-174 | one such packet, whatever comes after |
| `ArpQueue.CanBeStranded` | kernel/ip.h:171-174 | a run of nine events after which the next hop of the parked packet is no longer asked for |
| `ArpQueue.LateAnswerUnheard` | kernel/ip.h:171-174 | an answer that comes then leaves the packet where it is |
| `NetLink.Resolution` | kernel/arp.h:114-256 | two hosts: a's question, b's answer; a then holds b's address and a packet parked for b is on the wire to it |
| `NetLink.BuildArp` | kernel/arp.h:118-131 | the bytes written field by field are the frame |
| `NetLink.Link.Lookup` | kernel/arp.h:66-75 | answers exactly the resolved addresses |
| `NetLink.Link.FindPendingSlot` | kernel/arp.h:80-86 | the first slot with an unanswered request for the address |
| `NetLink.Link.IsPending` | kernel/arp.h:90-94 | whether such a request still counts |
| `NetLink.Link.FindOrAllocSlot` | kernel/arp.h:101-109 | its own slot, else the first free one, else slot 0 |
| `NetLink.Link.SendRequest` | kernel/arp.h:114-142 | the cache and the frame sent |
| `NetLink.Link.HandleFrame` | kernel/arp.h:175-256 | whether the frame was ARP, and the whole state after it |
| `NetLink.Link.FlushPending` | kernel/ip.h:221-229 | the parked packet goes to the resolved address exactly if that is its next hop |
| `NetLink.Link.Send` | kernel/ip.h:175-213 | the answer and the whole state after a send |

## Left out

- Associativity of the curve group is a hypothesis of `EccScalar`; the other group laws are proved.
- EccScalar.VerifySignature: starts from the limbs of r, s, the digest and the key; the DER parser and `ecc_from_be` before it are not modelled.
- Key generation and the shared secret of `ecc.h`.
- Timing of `ecc.h` and `gcm.h`: only what is computed is modelled.
- EccPoint.PtDouble: the temporaries of the formulas are values, the point's coordinates are fields; aliasing of out with an operand is covered.
- SHA, HMAC, TLS and the callers of GCM are not part of this model.
- The tables of character references, look-alike characters, tag names and attribute names are parameters of the HTML model; the classification of tags is written out.
- The three arenas of `dom.h` are sequence fields of one object, not arrays at fixed addresses.
- DomParse.Parse: of the token in which an arena fills up only the invariant and what is kept are stated, not which of its bytes were lost.
- Attribute selectors, hashes and attribute values are parameters of the CSS model, and each rule carries its compounds.
- Parsing of style sheets, the cascade after the sort, inheritance and computed values.
- CssIndex.ListAgrees: a rule whose bucket is visited twice, through two class words, is in the list twice, as in the code; with the scan of all rules the list is compared as a set.
- `bn_cmp` is `Limbs.Compare`; X25519 and RSA above `bignum.h` are not part of this model.
- The preview of the syllable in progress and drawing of `font_ko.h`.
- Name comparison, replies and retries of `dns.h`.
- Row structure, placement, line building, flexbox, grid and painting of `layout.h`.
- TableLayout.ColumnWidths: percentages of the table's own width (`css_len_resolve`) and margins enter as the declared width and the largest outer width.
- The IP header and its checksum, `ip_parse`, and everything above IP; a datagram is its packet and the hardware address it is sent to.
- A change of the address configuration in the middle of a run (DHCP).
- The serial log, and the answer of the network card to ARP frames and flushed packets, which the code ignores.
- Device drivers, file systems, the window system and the boot code.
