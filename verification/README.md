# Verification model of the SSH, SFTP and library code

This project models the parts of the firmware in which correctness depends on arithmetic or on
state, and proves what they compute, for all inputs and over whole runs.

- **Ed25519, SHA-512 and Poly1305** (`Machine`, `Residues`, `Limbs`, `Field25519`, `FieldCodec`,
  `FieldPower`, `Edwards`, `EdwardsLaws`, `Ladder`, `PointCodec`, `GroupOrder`, `Poly1305`, `Sha512`,
  `HashLaws`, `SignOpen`, `Completeness`, `Congruence`, `Fermat`, `Encodings`, `Acceptance`, `Roots`,
  `Signing`): the arrays and loops of TweetNaCl, with every store checked against the width of its C type,
  are proved to compute field arithmetic, the group law, the ladder, reduction modulo the group order, the
  hash and the tag that the standards define. Bytes decode exactly when their Y is that of a point,
  comparing the 32 bytes of two points compares the points, and what was signed is accepted. The constants
  and functions of the hash are tied to roots of primes and to bits.
- **The SSH transport** (`Options`, `Protocol`, `Codec`, `NameList`, `Transport`, `Connection`, `Client`,
  `SshClient`):
  packets, padding, sequence numbers, keystream positions and key exchange. A ghost history of what was sent
  and read explains the whole state of a connection. A client that reads the bytes of the server, and
  changes keys when it reads NEWKEYS, has everything that was sent; a receiver takes exactly what a sender
  in its state has sealed. `SshClient` is the other side: numbers, letters and names written out once more,
  so that what one side writes is what the other reads. A key exchange succeeds exactly if both sides can, and a
  session ends only for a reason.
- **The SFTP channel** (`Stream`, `Channel`): windows, reassembly and blocked sends. In every state
  between two packets, the channel has carried exactly the replies to the requests in the stream that was
  read, whatever pieces it came in, and every window is what the log of packets says; and at no moment, not
  even in a session that fails midway, has it carried more. The packets go through the connection, key
  exchanges included, so that the session is followed from the bytes of the client to those of the server.
- **The SFTP server** (`SftpPath`, `PathLaws`, `SftpTable`, `SftpProtocol`, `SftpServer`, `SftpClient`,
  `SftpSession`):
  path normalisation and where its results lead, the handle table, the server as a function from a state and
  a request to a state, a reply and the calls to the file system, and the program that refines it. `SftpClient`
  writes requests and reads replies by the numbers of the draft: it is told what was done, and what it
  downloads is the file.
- **Two incremental codecs** (`Unicode`, `Chunked`, `ChunkedBody`, `ChunkedParts`, `Matcher`): UTF-8 and UTF-16
  with a buffer that grows, and the chunked coding of the HTTP parser from the first size to the end of the
  message, which it takes to be complete exactly if it is well-formed.

How C is rendered: an expression over a machine type is an expression over `int`, stored in a variable of
a subset type of that width; a right shift is a division that rounds down, a mask of low bits a
remainder, and a wrap-around is written out. Exclusive or, and, or are defined on integers in `Machine`.
Arrays are arrays, objects with fields are classes, and loops are loops, each method against a function that
says what it has to compute.

The foreign parts are parameters: keystream, MAC and hash of the transport are functions, the
Diffie-Hellman step and the signature are functions that may fail, the file system is a record of
functions handed over with each request, random bytes are a function of how many were drawn, and the
network is a sequence of bytes that arrive and a number of bytes that the socket still takes.

Facts that the proofs brought out, and that the table states exactly:

- The test of a packet's length word also lets 2^32-4 pass, because the sum with four is of 32 bits
  (`Transport.AcceptedLengths`); it is the one accepted word for which the number of bytes still to read is
  negative (`Transport.RestIsSane`). In the clear such a packet is refused later
  (`Transport.NegativeRestIsRefused`).
- Verification accepts encodings of the public key that section 5.1.3 of RFC 8032 refuses: Y not below
  p, and Y with square 1 (so that X is 0) with the sign bit set. `Completeness.DecodeThenEncode` says exactly
  which, and `Completeness.NonCanonicalAccepted` gives one of each.
- A path is not always confined to the root. A name is compared with ".." by its counted bytes but printed up
  to its first NUL, so two dots and a NUL are stored as a name and printed as "..", and a name that starts with
  a NUL is printed as nothing (`PathLaws.NulMisleads`, `SftpProtocol.NulLeavesTheRoot`). `PathLaws.BelowExactly`
  says for which paths the result stays strictly below the root: for all that have no such NUL
  (`PathLaws.StrictlyBelow`), and so for all without NUL.
- When 24 names are stored, a further name is dropped, but a ".." behind it still takes one of the stored names
  (`PathLaws.UpWithLimits`).
- A cut can leave "/", "/." or "/.." at the end of a normalised path, so that normalising again changes it
  (`PathLaws.Idempotent` says when, `PathLaws.NotIdempotent` gives inputs for the buffer of 400 bytes). With
  that buffer such a cut alone never leads out of the root.
- Verification does not ask whether the response is below the group order, so every valid signature has a
  second form (`Acceptance.SecondForm`); `Acceptance.ResponseModuloOrder` says that responses count exactly
  modulo the order.
- Names of more than 200 bytes are looked up under their first 200 bytes when a directory is listed
  (`SftpProtocol.Child`).
- The server uses a packet limit of 1024 for clients that offer less (`Channel.Conn.OnOpen`).
- The HTTP parser takes chunk extensions that section 4.1.1 of RFC 7230 does not have: a semicolon or a value
  without a name, an empty value, and a quoted string right behind a token (`ChunkedParts.OddExtensions`).
  `ChunkedParts.CompletesExactly` says exactly what it takes.
- When a byte cannot stand in the name of a trailer field, the HTTP parser fails without reporting the part
  of the name that came in the same piece, so that what is reported before the failure depends on the cuts
  (`Chunked.CutsMatter` says when, `Chunked.NameForgotten` gives an input).

## Model

| member | source | states |
|---|---|---|
| Field25519.Car25519 | firmware/components/oyobyok_sshd/tweetnacl/tweetnacl.c:273-283 | One carry pass: the residue modulo p stays, fifteen limbs become 16-bit digits, and the carry out of the top returns times 38; no 64-bit overflow |
| Field25519.WrapAround | firmware/components/oyobyok_sshd/tweetnacl/tweetnacl.c:280 | The carry out of limb 15 weighs 2^256, so putting it back times 38 changes the number by a multiple of p |
| Field25519.CarriedTwice | firmware/components/oyobyok_sshd/tweetnacl/tweetnacl.c:361-362 | Two passes bring any limbs below 2^62 into the reduced form that bounds every later input |
| Field25519.A | firmware/components/oyobyok_sshd/tweetnacl/tweetnacl.c:342-346 | Limbwise sum of small numbers is the field sum, also when arrays alias |
| Field25519.Z | firmware/components/oyobyok_sshd/tweetnacl/tweetnacl.c:348-352 | Limbwise difference of small numbers is the field difference, also when arrays alias |
| Field25519.Columns | firmware/components/oyobyok_sshd/tweetnacl/tweetnacl.c:356-358 | The 31 column sums represent the product and stay below 2^56 |
| Field25519.Fold | firmware/components/oyobyok_sshd/tweetnacl/tweetnacl.c:359-360 | Folding the upper fifteen columns with factor 38 keeps the residue and stays below 2^62 |
| Field25519.M | firmware/components/oyobyok_sshd/tweetnacl/tweetnacl.c:354-363 | For limbs below 2^26 in absolute value: the product modulo 2^255-19, in a reduced form that is again a legal input after a few sums; no 64-bit overflow, also when arrays alias |
| FieldCodec.Sel25519 | firmware/components/oyobyok_sshd/tweetnacl/tweetnacl.c:285-293 | Exchanges two numbers when the flag is 1 and leaves both when it is 0 |
| FieldCodec.CarriedThrice | firmware/components/oyobyok_sshd/tweetnacl/tweetnacl.c:300-302 | Three carry passes turn any limbs below 2^62 into digits of a number in [0, 2^256) with the same residue |
| FieldCodec.SettledAfterTwo | firmware/components/oyobyok_sshd/tweetnacl/tweetnacl.c:300-302 | Folding the part above 2^256 back twice always ends in [0, 2^256) |
| FieldCodec.SubtractEnd | firmware/components/oyobyok_sshd/tweetnacl/tweetnacl.c:304-311 | The borrow out of the top limb of t - p is set exactly when t < p |
| FieldCodec.SubtractOnce | firmware/components/oyobyok_sshd/tweetnacl/tweetnacl.c:303-313 | One conditional subtraction: t - p if t >= p, otherwise t, as digits |
| FieldCodec.TwiceSubtracted | firmware/components/oyobyok_sshd/tweetnacl/tweetnacl.c:303-313 | Two conditional subtractions suffice below 2^256, because 2^256 < 3p |
| FieldCodec.Pack25519 | firmware/components/oyobyok_sshd/tweetnacl/tweetnacl.c:295-318 | The 32 bytes are the unique representative in [0, p) of the input |
| FieldCodec.StoreLimbs | firmware/components/oyobyok_sshd/tweetnacl/tweetnacl.c:314-317 | Two bytes for each limb, least significant first, keep the number |
| FieldCodec.Verify32 | firmware/components/oyobyok_sshd/tweetnacl/tweetnacl.c:54-69 | 0 when all 32 bytes agree and -1 otherwise, for all inputs |
| FieldCodec.Neq25519 | firmware/components/oyobyok_sshd/tweetnacl/tweetnacl.c:320-326 | 0 exactly when the two numbers are congruent modulo p |
| FieldCodec.Par25519 | firmware/components/oyobyok_sshd/tweetnacl/tweetnacl.c:328-333 | The lowest bit of the representative in [0, p) |
| FieldCodec.Unpack25519 | firmware/components/oyobyok_sshd/tweetnacl/tweetnacl.c:335-340 | The number in the 32 bytes without its top bit |
| FieldPower.ChainStep | firmware/components/oyobyok_sshd/tweetnacl/tweetnacl.c:375-378 | Squaring doubles the exponent and a multiplication adds one |
| FieldPower.InverseBits | firmware/components/oyobyok_sshd/tweetnacl/tweetnacl.c:375-378 | The bits of p - 2 are ones except bits 2 and 4, the two steps that the loop skips |
| FieldPower.RootBits | firmware/components/oyobyok_sshd/tweetnacl/tweetnacl.c:387-390 | The bits of (p - 5) / 8 are ones except bit 1, the step that the loop skips |
| FieldPower.Inv25519 | firmware/components/oyobyok_sshd/tweetnacl/tweetnacl.c:370-380 | i^(p-2); after every step the exponent is the corresponding prefix of p - 2 and the limbs stay reduced |
| FieldPower.Pow2523 | firmware/components/oyobyok_sshd/tweetnacl/tweetnacl.c:382-392 | i^((p-5)/8), with the prefix of the exponent as invariant |
| Edwards.AddDiagonals | firmware/components/oyobyok_sshd/tweetnacl/tweetnacl.c:592-597 | The products (Y1-X1)(Y2-X2) and (X1+Y1)(X2+Y2) |
| Edwards.AddScaled | firmware/components/oyobyok_sshd/tweetnacl/tweetnacl.c:598-601 | 2d T1 T2 and 2 Z1 Z2 |
| Edwards.AddMixed | firmware/components/oyobyok_sshd/tweetnacl/tweetnacl.c:602-605 | The differences and sums E, F, G, H of the four products |
| Edwards.AddInPlace | firmware/components/oyobyok_sshd/tweetnacl/tweetnacl.c:588-611 | p := p + q by the formulas of section 5.1.4 of RFC 8032, also when p and q are the same arrays; limb bounds kept |
| Edwards.Cswap | firmware/components/oyobyok_sshd/tweetnacl/tweetnacl.c:613-618 | All four coordinates are exchanged, or none |
| EdwardsLaws.DoubledConstant | firmware/components/oyobyok_sshd/tweetnacl/tweetnacl.c:19-20 | The second curve constant is twice the first modulo p |
| EdwardsLaws.CurveGap | firmware/components/oyobyok_sshd/tweetnacl/tweetnacl.c:588-611 | The polynomial identity that splits the curve equation of a sum into two parts that vanish on the curve |
| EdwardsLaws.CurveIdentity | firmware/components/oyobyok_sshd/tweetnacl/tweetnacl.c:588-611 | The halves of a sum of two points on the curve satisfy the curve equation |
| EdwardsLaws.AddKeepsCurve | firmware/components/oyobyok_sshd/tweetnacl/tweetnacl.c:588-611 | X Y = Z T and -X^2 + Y^2 = Z^2 + d T^2 are kept by addition |
| EdwardsLaws.AddIsAffine | firmware/components/oyobyok_sshd/tweetnacl/tweetnacl.c:588-611 | The sum cross-multiplies to the affine addition law, with all denominators multiplied out |
| Ladder.Scalarmult | firmware/components/oyobyok_sshd/tweetnacl/tweetnacl.c:630-644 | The loop over 256 bits on arrays equals the recursive ladder on points |
| Ladder.AboveStep | firmware/components/oyobyok_sshd/tweetnacl/tweetnacl.c:638 | Reading one more bit doubles the number read so far and adds the bit |
| Ladder.LadderInvariant | firmware/components/oyobyok_sshd/tweetnacl/tweetnacl.c:637-643 | In any group that the formulas represent, the pair is ([k]Q, [k+1]Q) with k the bits read so far |
| Ladder.LadderComputesMultiple | firmware/components/oyobyok_sshd/tweetnacl/tweetnacl.c:630-644 | The ladder computes [s]Q for every 32-byte s |
| Ladder.LadderStaysOnCurve | firmware/components/oyobyok_sshd/tweetnacl/tweetnacl.c:630-644 | Every point that the ladder visits is on the curve, for every s |
| PointCodec.CandidateInto | firmware/components/oyobyok_sshd/tweetnacl/tweetnacl.c:753-763 | The candidate u v^3 (u v^7)^((p-5)/8), whatever the order of the products; `Roots.CandidateIsRoot` says why this power |
| PointCodec.SquareDiffers | firmware/components/oyobyok_sshd/tweetnacl/tweetnacl.c:765-767 | 0 exactly when v x^2 = u |
| PointCodec.SquareOfI | firmware/components/oyobyok_sshd/tweetnacl/tweetnacl.c:23 | The constant I squares to -1 modulo p |
| PointCodec.TimesI | firmware/components/oyobyok_sshd/tweetnacl/tweetnacl.c:767 | Multiplying by I negates v x^2, so at most one of the two candidates has to be tried again |
| PointCodec.RootFound | firmware/components/oyobyok_sshd/tweetnacl/tweetnacl.c:765-771 | Trying the candidate and then I times it finds a root exactly when one of the two is a root |
| PointCodec.RootIsRoot | firmware/components/oyobyok_sshd/tweetnacl/tweetnacl.c:763-771 | What is found satisfies v x^2 = u |
| PointCodec.Unpackneg | firmware/components/oyobyok_sshd/tweetnacl/tweetnacl.c:743-777 | 0 exactly when the encoding has a root (which encodings do is said by `Roots.DecodesExactly`), and then the arrays hold the negated point |
| PointCodec.DecodedPoint | firmware/components/oyobyok_sshd/tweetnacl/tweetnacl.c:743-777 | A decoded point is on the curve, has Z = 1 and the encoded Y, and its X has the opposite of the encoded sign unless it is 0 |
| PointCodec.BaseOnCurve | firmware/components/oyobyok_sshd/tweetnacl/tweetnacl.c:21-22 | The base-point constants satisfy both curve equations |
| PointCodec.StandardConstants | firmware/components/oyobyok_sshd/tweetnacl/tweetnacl.c:18-22 | The constants by section 5.1 of RFC 8032: p is 2^255 - 19, 121666 d is -121665, the base point has 5 Y = 4 and an even X that is not 0 |
| PointCodec.Pack | firmware/components/oyobyok_sshd/tweetnacl/tweetnacl.c:620-628 | The encoding is Y/Z with the lowest bit of X/Z in the top bit |
| PointCodec.Scalarbase | firmware/components/oyobyok_sshd/tweetnacl/tweetnacl.c:646-654 | The ladder started at the base point |
| GroupOrder.FoldLimb | firmware/components/oyobyok_sshd/tweetnacl/tweetnacl.c:680-689 | One fold subtracts 16 x[i] 2^(8(i-32)) times the order, clears the limb, keeps the others and bounds the carries; no 64-bit overflow |
| GroupOrder.FoldAll | firmware/components/oyobyok_sshd/tweetnacl/tweetnacl.c:680-689 | All 32 folds keep the residue modulo the order and leave the lower limbs bounded |
| GroupOrder.SubtractTop | firmware/components/oyobyok_sshd/tweetnacl/tweetnacl.c:690-695 | The multiple of the order that the top limb suggests is subtracted, and digits and a carry remain |
| GroupOrder.TopEstimate | firmware/components/oyobyok_sshd/tweetnacl/tweetnacl.c:690-695 | That multiple is right up to one: the result lies in [-order, order) |
| GroupOrder.FinalCorrection | firmware/components/oyobyok_sshd/tweetnacl/tweetnacl.c:696-700 | Adding the order back when the carry is -1, and dropping the carry out of the top, gives the canonical residue |
| GroupOrder.SubtractMultiple | firmware/components/oyobyok_sshd/tweetnacl/tweetnacl.c:696 | The last correction, limb by limb |
| GroupOrder.StoreDigits | firmware/components/oyobyok_sshd/tweetnacl/tweetnacl.c:697-700 | The final carries and the 32 bytes, modulo 2^256 |
| GroupOrder.ModL | firmware/components/oyobyok_sshd/tweetnacl/tweetnacl.c:677-701 | For every input of the sizes the callers produce: 32 bytes congruent modulo the order and below it, other bytes untouched |
| GroupOrder.Reduce | firmware/components/oyobyok_sshd/tweetnacl/tweetnacl.c:703-709 | The residue of a 64-byte number, and zeros above it |
| GroupOrder.ResponseScalar | firmware/components/oyobyok_sshd/tweetnacl/tweetnacl.c:735-738 | The product sums of two 32-byte scalars reduce to (r + h d) modulo the order |
| GroupOrder.StandardOrder | firmware/components/oyobyok_sshd/tweetnacl/tweetnacl.c:675 | The order is the one of section 5.1 of RFC 8032: 2^252 and a number of 38 digits |
| Poly1305.Add1305 | firmware/components/oyobyok_sshd/tweetnacl/tweetnacl.c:171-179 | Sum of 17-limb numbers modulo 2^136 |
| Poly1305.RowResidue | firmware/components/oyobyok_sshd/tweetnacl/tweetnacl.c:205-208 | A row of coefficients with factor 320 is r times a power of 256 modulo 2^130-5 |
| Poly1305.ColumnsResidue | firmware/components/oyobyok_sshd/tweetnacl/tweetnacl.c:205-208 | The column sums represent the product modulo 2^130-5 |
| Poly1305.Multiply | firmware/components/oyobyok_sshd/tweetnacl/tweetnacl.c:205-209 | h r modulo 2^130-5 in 17 limbs, with no partial sum reaching 2^32 |
| Poly1305.Propagate | firmware/components/oyobyok_sshd/tweetnacl/tweetnacl.c:210-215 | A carry pass over sixteen limbs keeps the number |
| Poly1305.TopFolded | firmware/components/oyobyok_sshd/tweetnacl/tweetnacl.c:216-217 | The part above 2^130 returns times 5 with the same residue |
| Poly1305.PartialReduce | firmware/components/oyobyok_sshd/tweetnacl/tweetnacl.c:210-223 | Partial reduction keeps the residue and bounds every limb |
| Poly1305.LoadBlock | firmware/components/oyobyok_sshd/tweetnacl/tweetnacl.c:200-203 | The next block with a one above its highest byte, also for a short last block |
| Poly1305.Absorb | firmware/components/oyobyok_sshd/tweetnacl/tweetnacl.c:199-224 | One step of the polynomial evaluation |
| Poly1305.HighBitTells | firmware/components/oyobyok_sshd/tweetnacl/tweetnacl.c:227-229 | After adding 2^136 - (2^130-5) the top bit is set exactly when the number was below 2^130-5 |
| Poly1305.FullReduce | firmware/components/oyobyok_sshd/tweetnacl/tweetnacl.c:226-229 | The branch-free final subtraction gives the canonical residue |
| Poly1305.LoadKey | firmware/components/oyobyok_sshd/tweetnacl/tweetnacl.c:189-197 | The clamped first half of the key |
| Poly1305.AddPad | firmware/components/oyobyok_sshd/tweetnacl/tweetnacl.c:231-234 | The second half of the key is added modulo 2^128 |
| Poly1305.OneTimeAuth | firmware/components/oyobyok_sshd/tweetnacl/tweetnacl.c:185-236 | The tag of section 2.5 of RFC 8439 for every message and key |
| Poly1305.AccumulateIsPolynomial | firmware/components/oyobyok_sshd/tweetnacl/tweetnacl.c:199-224 | The loop evaluates b_1 r^n + ... + b_n r modulo 2^130-5, for the blocks as numbers |
| Poly1305.TagIsPolynomial | firmware/components/oyobyok_sshd/tweetnacl/tweetnacl.c:185-236 | The tag in one formula, without the fold |
| Poly1305.ClampedBits | firmware/components/oyobyok_sshd/tweetnacl/tweetnacl.c:191-197 | The clamped key bit by bit: which bits are cleared, and that all others are those of the key |
| Sha512.Load64 | firmware/components/oyobyok_sshd/tweetnacl/tweetnacl.c:35-40 | Eight bytes, most significant first |
| Sha512.Store64 | firmware/components/oyobyok_sshd/tweetnacl/tweetnacl.c:48-52 | A word as eight bytes, and nothing else in the buffer |
| Sha512.ScheduleStep | firmware/components/oyobyok_sshd/tweetnacl/tweetnacl.c:535-537 | The in-place update computes the schedule recurrence, whatever the order of the sums |
| Sha512.Reschedule | firmware/components/oyobyok_sshd/tweetnacl/tweetnacl.c:535-537 | Rewriting the window of sixteen words in place moves it sixteen words up the 80-word schedule |
| Sha512.RotatedRound | firmware/components/oyobyok_sshd/tweetnacl/tweetnacl.c:530-534 | The rotated assignment of the working variables is the round of the standard |
| Sha512.EightyRounds | firmware/components/oyobyok_sshd/tweetnacl/tweetnacl.c:529-538 | Eighty rounds over the rolling window equal eighty rounds over the schedule |
| Sha512.Hashblocks | firmware/components/oyobyok_sshd/tweetnacl/tweetnacl.c:519-549 | The fold of the compression function over the whole blocks; the rest is counted and ignored |
| Sha512.BytesSplit | firmware/components/oyobyok_sshd/tweetnacl/tweetnacl.c:579-580 | The length in bits splits into the byte b >> 61 and the eight bytes of b << 3 |
| Sha512.HashBlocksAppend | firmware/components/oyobyok_sshd/tweetnacl/tweetnacl.c:569-581 | Hashing whole blocks and then the rest equals hashing them in one go |
| Sha512.PartialBlockIgnored | firmware/components/oyobyok_sshd/tweetnacl/tweetnacl.c:526 | An unfinished block does not change the state |
| Sha512.TailCompletes | firmware/components/oyobyok_sshd/tweetnacl/tweetnacl.c:574-580 | Message and tail together are the padded message of section 5.1.2 of FIPS 180-4, in one block or two |
| Sha512.TwoStepDigest | firmware/components/oyobyok_sshd/tweetnacl/tweetnacl.c:569-581 | Whole blocks first and the padded tail afterwards give the digest |
| Sha512.InitialState | firmware/components/oyobyok_sshd/tweetnacl/tweetnacl.c:551-560 | The initial bytes are the initial hash value of the standard |
| Sha512.MakeTail | firmware/components/oyobyok_sshd/tweetnacl/tweetnacl.c:574-580 | The buffer built by the program is the tail |
| Sha512.CryptoHash | firmware/components/oyobyok_sshd/tweetnacl/tweetnacl.c:562-586 | The digest for every message, for any round functions and constants |
| Sha512.CryptoHash512 | firmware/components/oyobyok_sshd/tweetnacl/tweetnacl.c:562-586 | SHA-512 itself: the same with the functions and constants of section 4 of FIPS 180-4, which `HashLaws` ties to what they mean |
| HashLaws.RotateBits | firmware/components/oyobyok_sshd/tweetnacl/tweetnacl.c:487 | Bit i of a rotation by c is bit i + c, counted around |
| HashLaws.ChooseBits | firmware/components/oyobyok_sshd/tweetnacl/tweetnacl.c:488 | Bit i of the choice is that of y where x has a one, and that of z elsewhere |
| HashLaws.MajorityBits | firmware/components/oyobyok_sshd/tweetnacl/tweetnacl.c:489 | Bit i of the majority is set exactly when at least two of the three are |
| HashLaws.SigmaBits | firmware/components/oyobyok_sshd/tweetnacl/tweetnacl.c:490-493 | The four mixing functions, bit by bit: three bits at the distances of the standard, added modulo 2 |
| HashLaws.BitsDecide | firmware/components/oyobyok_sshd/tweetnacl/tweetnacl.c:487-493 | Two words with the same bits are the same, so the bits say all about the six functions |
| HashLaws.FirstPrimes | firmware/components/oyobyok_sshd/tweetnacl/tweetnacl.c:495-517 | The list of primes that the constants are compared with holds the first 80 primes, in order and without a gap |
| HashLaws.ConstantsAreRoots | firmware/components/oyobyok_sshd/tweetnacl/tweetnacl.c:495-517 | Constant t is the first 64 bits of the fraction of the cube root of prime t: (a 2^64 + K)^3 <= p 2^192 < (a 2^64 + K + 1)^3 |
| HashLaws.InitialAreRoots | firmware/components/oyobyok_sshd/tweetnacl/tweetnacl.c:551-560 | Initial word i is the first 64 bits of the fraction of the square root of prime i |
| HashLaws.ScheduleForm | firmware/components/oyobyok_sshd/tweetnacl/tweetnacl.c:535-537 | The schedule as in section 6.4.2 of FIPS 180-4, with one sum modulo 2^64 |
| HashLaws.RoundForm | firmware/components/oyobyok_sshd/tweetnacl/tweetnacl.c:530-534 | One round on a to h, with the two sums of the standard |
| HashLaws.PaddingForm | firmware/components/oyobyok_sshd/tweetnacl/tweetnacl.c:574-580 | The padded message is whole blocks, as few as possible: message, one bit, zeros, and the number of bits, most significant byte first |
| SignOpen.HashChallenge | firmware/components/oyobyok_sshd/tweetnacl/tweetnacl.c:792-793 | The hash of commitment, key and message modulo the order |
| SignOpen.RecoverCommitment | firmware/components/oyobyok_sshd/tweetnacl/tweetnacl.c:794-798 | The encoding of [h](-A) + [s]B |
| SignOpen.CopyOver | firmware/components/oyobyok_sshd/tweetnacl/tweetnacl.c:790-791 | The buffer holds the signed message with the key in place of the response |
| SignOpen.CryptoSignOpen | firmware/components/oyobyok_sshd/tweetnacl/tweetnacl.c:779-809 | Accepts exactly when the key decodes and the recovered commitment encodes to the first 32 bytes; returns the message, or clears it |
| SignOpen.RecoveredMeaning | firmware/components/oyobyok_sshd/tweetnacl/tweetnacl.c:794-797 | In any group that the formulas represent, the compared point is h times the negated key plus s times the base point |
| SignOpen.RecoveredOnCurve | firmware/components/oyobyok_sshd/tweetnacl/tweetnacl.c:788-797 | Every point computed during verification is on the curve |
| Completeness.DenominatorsNonZero | firmware/components/oyobyok_sshd/tweetnacl/tweetnacl.c:602-610 | d T1 T2 is never plus or minus Z1 Z2, if p has no zero divisors and d is no square |
| Completeness.AddStaysProper | firmware/components/oyobyok_sshd/tweetnacl/tweetnacl.c:588-611 | Under the same premises addition never produces Z = 0 |
| Completeness.DecodeThenEncode | firmware/components/oyobyok_sshd/tweetnacl/tweetnacl.c:743-777 | Encoding a decoded point gives the bytes back exactly when the number in them is below p and, if its square is 1, the sign bit is clear; the code also accepts others, unlike section 5.1.3 of RFC 8032 |
| Completeness.ZeroX | firmware/components/oyobyok_sshd/tweetnacl/tweetnacl.c:743-777 | The decoded X is 0 exactly when the square of the encoded Y is 1 |
| Completeness.NonCanonicalAccepted | firmware/components/oyobyok_sshd/tweetnacl/tweetnacl.c:743-777 | Two such encodings, which are accepted and do not come back: 1 written as p + 1, and 1 with the sign bit set |
| Fermat.LittleFermat | firmware/components/oyobyok_sshd/tweetnacl/tweetnacl.c:370-380 | For every modulus m without zero divisors, x^m is congruent to x for every x |
| Encodings.Inverse | firmware/components/oyobyok_sshd/tweetnacl/tweetnacl.c:370-380 | The power i^(p-2) that the addition chain computes is the inverse of every i but 0 |
| Encodings.AffineCurve | firmware/components/oyobyok_sshd/tweetnacl/tweetnacl.c:620-628 | What is encoded, X/Z and Y/Z, satisfies the affine curve equation |
| Encodings.EncodingIsFaithful | firmware/components/oyobyok_sshd/tweetnacl/tweetnacl.c:620-628 | Two points of the curve have the same 32 bytes exactly when they are the same affine point, whatever their Z |
| Acceptance.LadderIsGood | firmware/components/oyobyok_sshd/tweetnacl/tweetnacl.c:630-644 | Every point that the ladder reaches from a point with Z not 0 has Z not 0 |
| Acceptance.AcceptedMeansEqual | firmware/components/oyobyok_sshd/tweetnacl/tweetnacl.c:779-809 | Comparing 32 bytes compares points: a signature is accepted exactly when the recovered point and the point it starts with are the same |
| Acceptance.SameMultiple | firmware/components/oyobyok_sshd/tweetnacl/tweetnacl.c:630-644 | In a group in which the base point has the order, multiples are equal exactly when their numbers are, modulo the order |
| Acceptance.ResponseModuloOrder | firmware/components/oyobyok_sshd/tweetnacl/tweetnacl.c:779-809 | The response counts modulo the group order only: of two signatures that differ in it, both are accepted or none if the responses are congruent, and never both if they are not |
| Acceptance.SecondForm | firmware/components/oyobyok_sshd/tweetnacl/tweetnacl.c:779-809 | Every signature with a response below the order has a second form, with the order added, which is accepted exactly when it is; section 5.1.7 of RFC 8032 demands that it is refused |
| Roots.QuarterPower | firmware/components/oyobyok_sshd/tweetnacl/tweetnacl.c:753-763 | For m = 4 j + 1 without zero divisors, the power j of a square that is not 0 is 1 or -1 |
| Roots.CandidateIsRoot | firmware/components/oyobyok_sshd/tweetnacl/tweetnacl.c:753-763 | If v x^2 = u for some x, the candidate c has v c^2 = u or v c^2 = -u, for every m = 8 k + 5 without zero divisors |
| Roots.RootExactly | firmware/components/oyobyok_sshd/tweetnacl/tweetnacl.c:763-771 | A root of u / v is found exactly when there is one |
| Roots.DecodesExactly | firmware/components/oyobyok_sshd/tweetnacl/tweetnacl.c:743-777 | An encoding is accepted exactly when its Y is that of a point of the curve: there is an x with x^2 (1 + d y^2) = y^2 - 1 |
| Signing.Expand | firmware/components/oyobyok_sshd/tweetnacl/tweetnacl.c:661-664 | The hash of the seed with the bits cleared and set by the masks, as a value |
| Signing.ClampedScalar | firmware/components/oyobyok_sshd/tweetnacl/tweetnacl.c:662-664 | The scalar is a multiple of 8 between 2^254 and 2^255, and the second half of the hash stays |
| Signing.CryptoSignKeypair | firmware/components/oyobyok_sshd/tweetnacl/tweetnacl.c:656-673 | The public key is the encoding of the scalar times the base point, and the secret key is the seed and the public key |
| Signing.CryptoSign | firmware/components/oyobyok_sshd/tweetnacl/tweetnacl.c:711-741 | The signature of section 5.1.6 of RFC 8032, built in one buffer that holds, one after the other, what is hashed |
| Signing.BytesOfEncoding | firmware/components/oyobyok_sshd/tweetnacl/tweetnacl.c:620-628 | The 32 bytes of a point hold its Y, and in the highest bit whether its X is odd |
| Signing.EncodeThenDecode | firmware/components/oyobyok_sshd/tweetnacl/tweetnacl.c:743-777 | The bytes of every point of the curve decode, to the point with the same Y and the opposite X |
| Signing.NegativeCancels | firmware/components/oyobyok_sshd/tweetnacl/tweetnacl.c:588-611 | Adding a point and its decoded negative gives the neutral element |
| Signing.ResponseCancels | firmware/components/oyobyok_sshd/tweetnacl/tweetnacl.c:735-739 | h times the inverse of d x, and any number that is r + h d modulo the order, times x, give r x |
| Signing.GenuineIsAccepted | firmware/components/oyobyok_sshd/tweetnacl/tweetnacl.c:711-809 | Every signature that is made with a key pair is accepted under its public key, for every seed and message |
| Signing.SignThenOpen | firmware/components/oyobyok_sshd/tweetnacl/tweetnacl.c:711-809 | The programs together: the key pair is made, the message signed and opened, and comes back |
| Codec.Writer.PutBytes | firmware/components/oyobyok_sshd/oyobyok_sshd.c:57-60 | Appends when there is room and otherwise nothing; the buffer outside stays |
| Codec.Writer.PutString | firmware/components/oyobyok_sshd/oyobyok_sshd.c:61 | Length and bytes are two fields, each dropped on its own when it does not fit |
| Codec.Writer.PutU64 | firmware/components/oyobyok_sshd/oyobyok_sftpd.c:49 | Two words, high first |
| Codec.PutAll | firmware/components/oyobyok_sshd/oyobyok_sftpd.c:46-51 | If all fields fit, none is dropped and the buffer holds their encodings in order |
| Codec.Reader.GetU32 | firmware/components/oyobyok_sshd/oyobyok_sshd.c:67-68 | The next four bytes, or a mark that they are missing |
| Codec.Reader.GetString | firmware/components/oyobyok_sshd/oyobyok_sshd.c:69-70 | The next string, or a mark that its length or its bytes are missing |
| Codec.Reader.GetU64 | firmware/components/oyobyok_sshd/oyobyok_sftpd.c:57 | Two words, high first |
| Codec.TakeInverts | firmware/components/oyobyok_sshd/oyobyok_sftpd.c:54-59 | Reading a field at its place gives what was written |
| Codec.TakeAllInverts | firmware/components/oyobyok_sshd/oyobyok_sftpd.c:46-59 | Any list of fields, with anything before and after it, reads back as it was written, and the cursor ends behind it |
| Codec.TruncationNoticed | firmware/components/oyobyok_sshd/oyobyok_sftpd.c:54-59 | A field cut short anywhere, after anything, marks the cursor as bad |
| Codec.AllTruncationNoticed | firmware/components/oyobyok_sshd/oyobyok_sftpd.c:54-59 | So does a list of fields that is cut short anywhere |
| Codec.BigEndian | firmware/components/oyobyok_sshd/oyobyok_sshd.c:59 | The most significant byte of a number comes first |
| NameList.ListHas | firmware/components/oyobyok_sshd/oyobyok_sshd.c:72-78 | True exactly when the name is one of the names between the commas |
| NameList.NameStands | firmware/components/oyobyok_sshd/oyobyok_sshd.c:74-76 | A match between commas or ends of the list is a name of the list |
| Transport.PaddingFits | firmware/components/oyobyok_sshd/oyobyok_sshd.c:141-142 | Padding of 4 to 19 bytes to a multiple of 16 |
| Transport.AcceptedLengths | firmware/components/oyobyok_sshd/oyobyok_sshd.c:166-167 | The length test accepts exactly the aligned lengths from 5 to 35996 and one more word, 2^32-4, whose 32-bit sum with four is zero |
| Transport.RestIsSane | firmware/components/oyobyok_sshd/oyobyok_sshd.c:167-169 | For accepted words the signed number of bytes still to read lies between 0 and the size of the buffer exactly when the word is not 2^32-4 |
| Transport.NegativeRestIsRefused | firmware/components/oyobyok_sshd/oyobyok_sshd.c:168-180 | In the clear a packet that starts with that word is read no further and refused |
| Transport.CryptInverts | firmware/components/oyobyok_sshd/oyobyok_sshd.c:151 | Applying the keystream twice gives the bytes back |
| Transport.CryptSplits | firmware/components/oyobyok_sshd/oyobyok_sshd.c:165-171 | Decrypting the first block and then the rest uses up the keystream like one call |
| Transport.KeystreamIsAdded | firmware/components/oyobyok_sshd/oyobyok_sshd.c:151 | Byte i differs from the plain one by the byte of the keystream at position + i |
| Transport.KeystreamOnce | firmware/components/oyobyok_sshd/oyobyok_sshd.c:148-156 | Between changes of keys no part of a keystream is used for two packets |
| Transport.OpenInverts | firmware/components/oyobyok_sshd/oyobyok_sshd.c:140-183 | A receiver in the state of the sender gets the payload and stays in the same state, in the clear and encrypted |
| Transport.FrameLayout | firmware/components/oyobyok_sshd/oyobyok_sshd.c:141-147 | A packet says how long it is without its length word and how long its padding is, and the payload stands between |
| Transport.OpensExactly | firmware/components/oyobyok_sshd/oyobyok_sshd.c:140-183 | A receiver accepts exactly what a sender in its state has sealed: sequence number, place in the keystream and every byte are covered |
| Transport.OutOfPlaceIsRefused | firmware/components/oyobyok_sshd/oyobyok_sshd.c:131-138 | A sealed packet is not accepted under another sequence number, unless the MAC agrees on two messages that are different |
| Transport.ReadsBack | firmware/components/oyobyok_sshd/oyobyok_sshd.c:140-183 | Any run of packets and changes of keys reads back exactly, with both ends agreeing on keys, sequence number and keystream position |
| Transport.SequenceNumber | firmware/components/oyobyok_sshd/oyobyok_sshd.c:153-177 | The sequence number counts packets modulo 2^32 since the connection began, whatever keys they had; the position is always a whole number of blocks |
| Connection.CryptInPlace | firmware/components/oyobyok_sshd/oyobyok_sshd.c:151 | Bytes of a range are encrypted in place, the others stay |
| Connection.Conn.MakeFrame | firmware/components/oyobyok_sshd/oyobyok_sshd.c:141-147 | The output buffer becomes a packet with the payload in place |
| Connection.Conn.Transmit | firmware/components/oyobyok_sshd/oyobyok_sshd.c:148-156 | Encrypts, sends and counts; fails exactly when the socket does not take everything |
| Connection.Conn.SendPacket | firmware/components/oyobyok_sshd/oyobyok_sshd.c:140-157 | One more packet in the history; refused without effect when too long |
| Connection.WriterFits | firmware/components/oyobyok_sshd/oyobyok_sshd.c:158 | Whatever is built through out_begin is short enough to send and passes the length test of a receiver |
| Connection.Conn.OutSend | firmware/components/oyobyok_sshd/oyobyok_sshd.c:158-159 | What was written through the cursor is the payload that is sent |
| Connection.Conn.ReadLength | firmware/components/oyobyok_sshd/oyobyok_sshd.c:161-167 | The first block, decrypted, and the length test of the program on it |
| Connection.Conn.ReadBody | firmware/components/oyobyok_sshd/oyobyok_sshd.c:168-176 | The rest of the packet and the comparison of the MAC |
| Connection.Conn.ReadPacket | firmware/components/oyobyok_sshd/oyobyok_sshd.c:161-183 | Succeeds exactly when the specification opens the packet; the payload is at the start of the buffer and in the history |
| Connection.Conn.CheckAlgorithms | firmware/components/oyobyok_sshd/oyobyok_sshd.c:248-253 | The client offers the key exchange, the host key and the cipher of the server |
| Connection.Conn.SendKexInit | firmware/components/oyobyok_sshd/oyobyok_sshd.c:234-243 | The offer of one algorithm of each kind is sent, whole, and kept for the exchange hash |
| Connection.Conn.Negotiate | firmware/components/oyobyok_sshd/oyobyok_sshd.c:246-260 | The server offers unless it did so already, and reads a point of 65 bytes |
| Connection.Conn.SendReply | firmware/components/oyobyok_sshd/oyobyok_sshd.c:300-304 | Host key, point and signature, none dropped |
| Connection.Conn.Announce | firmware/components/oyobyok_sshd/oyobyok_sshd.c:300-308 | Reply and NEWKEYS go out and the NEWKEYS of the client comes in under the old keys |
| Connection.Conn.InstallKeys | firmware/components/oyobyok_sshd/oyobyok_sshd.c:310-318 | Both directions start a new keystream with new keys; sequence numbers go on |
| Connection.Conn.SwitchKeys | firmware/components/oyobyok_sshd/oyobyok_sshd.c:310-318 | The whole-run invariant survives the change of keys |
| Connection.Conn.NameSession | firmware/components/oyobyok_sshd/oyobyok_sshd.c:290 | Only the first exchange names the session |
| Connection.Conn.Propose | firmware/components/oyobyok_sshd/oyobyok_sshd.c:246-258 | Fails exactly if the algorithms do not agree, as long as the socket takes a packet |
| Connection.Conn.Conclude | firmware/components/oyobyok_sshd/oyobyok_sshd.c:261-327 | From the point to the new keys: reply, keys and session, and exactly when that succeeds |
| Connection.Conn.DoKex | firmware/components/oyobyok_sshd/oyobyok_sshd.c:245-327 | The order of messages on both sides, the exchange hash of section 4 of RFC 5656 over what was really exchanged, one more set of keys for both directions, and a session identifier that never changes; the reply that is sent carries the host key, the own point and the signature of the hashed exchange hash; with room in the socket it succeeds exactly if the algorithms agree, the next packets are a point of 65 bytes and NEWKEYS, and the two steps succeed |
| Client.KeysChangeWhenAnnounced | firmware/components/oyobyok_sshd/oyobyok_sshd.c:305-318 | In every reachable state keys change after the NEWKEYS packets of the server and only there, whatever else is sent |
| Client.FollowsPlan | firmware/components/oyobyok_sshd/oyobyok_sshd.c:140-183 | A client that changes keys whenever it reads NEWKEYS reads the same as one that is told where they change |
| Client.ClientFollows | firmware/components/oyobyok_sshd/oyobyok_sshd.c:140-183 | In every reachable state such a client has read every payload and agrees with the server on keys, number and position |
| Client.RepliesReachTheClient | firmware/components/oyobyok_sshd/oyobyok_sshd.c:433-525 | The channel over its connection: from the bytes of the server alone the client gets the replies to the frames in the bytes that it sent |
| SshClient.ExchangeHashCovers | firmware/components/oyobyok_sshd/oyobyok_sshd.c:280-289 | What is hashed reads back as V_C, V_S, I_C, I_S, K_S, Q_C, Q_S and K, and nothing else |
| SshClient.SameHashSameExchange | firmware/components/oyobyok_sshd/oyobyok_sshd.c:280-289 | Two exchanges with the same hash agree in every part, or the hash has a collision |
| SshClient.KeysByLetter | firmware/components/oyobyok_sshd/oyobyok_sshd.c:228-316 | The keys of section 7.2 of RFC 4253: A, C and E towards the server, B, D and F towards the client |
| SshClient.OfferIsRead | firmware/components/oyobyok_sshd/oyobyok_sshd.c:248-253 | A KEXINIT with any ten lists passes exactly if the first three name the algorithms of the server |
| SshClient.ServerOffers | firmware/components/oyobyok_sshd/oyobyok_sshd.c:234-243 | The offer of the server reads back as its ten lists, and would pass its own test |
| SshClient.ReplyReadsBack | firmware/components/oyobyok_sshd/oyobyok_sshd.c:300-304 | A client reads host key, point and signature in the reply |
| SshClient.DataReadsBack | firmware/components/oyobyok_sshd/oyobyok_sshd.c:466-469 | A client reads a piece of a reply whole, addressed to its channel |
| SshClient.CountedAsRead | firmware/components/oyobyok_sshd/oyobyok_sshd.c:484-511 | The accounts of the channel count the windows and the data that a client reads in the same packets |
| SshClient.AccountsAsAsked | firmware/components/oyobyok_sshd/oyobyok_sshd.c:484-511 | The accounts are kept by the fields that a client wrote: number, window and limit of its channel, what it grants and what it uses |
| SshClient.OpenIsAnswered | firmware/components/oyobyok_sshd/oyobyok_sshd.c:484-493 | What a client reads when it asks for a channel: its own number, the number, window and limit of the server, or the refusal with its reason |
| SshClient.StartIsAnswered | firmware/components/oyobyok_sshd/oyobyok_sshd.c:494-501 | Success is read exactly when this request started the subsystem, failure otherwise, and nothing when no answer is wanted |
| SshClient.DataIsAnswered | firmware/components/oyobyok_sshd/oyobyok_sshd.c:503-511 | More window is granted to the channel of the client exactly when less than half of it is left |
| SshClient.OthersAreAnswered | firmware/components/oyobyok_sshd/oyobyok_sshd.c:482-521 | Global requests, grants, end of file and close, as the client reads the answers |
| SshClient.UnknownIsAnswered | firmware/components/oyobyok_sshd/oyobyok_sshd.c:522-523 | Any other packet is answered with its sequence number |
| Stream.DeframeInverts | firmware/components/oyobyok_sshd/oyobyok_sshd.c:445-455 | A stream is cut into frames in one way only |
| Stream.DeframeGrows | firmware/components/oyobyok_sshd/oyobyok_sshd.c:445-455 | More of a stream only adds frames |
| Stream.FramesFirst | firmware/components/oyobyok_sshd/oyobyok_sshd.c:445-455 | Frames at the start of a stream are its first frames |
| Channel.NothingDropped | firmware/components/oyobyok_sshd/oyobyok_sshd.c:468 | A data message within the cap carries exactly its bytes: the silent room check drops nothing |
| Channel.FedSnoc | firmware/components/oyobyok_sshd/oyobyok_sshd.c:494-511 | What one more packet adds to the stream of the subsystem |
| Channel.NothingUncounted | firmware/components/oyobyok_sshd/oyobyok_sshd.c:484-511 | The accounts that are kept from the packets alone leave out no byte that was sent or fed and no window that was offered |
| Channel.TermsFromRead | firmware/components/oyobyok_sshd/oyobyok_sshd.c:484-502 | Channel, number, limit and grant depend on the packets read only |
| Channel.EarnedSnoc | firmware/components/oyobyok_sshd/oyobyok_sshd.c:433-525 | Reading more, or sending what a reply still lacks, never sends more than the replies to what was read |
| Channel.QuietLog | firmware/components/oyobyok_sshd/oyobyok_sshd.c:481 | The packets of a key exchange, in any order, change no account, no stream and no promise of the log |
| Channel.Conn.SendChunk | firmware/components/oyobyok_sshd/oyobyok_sshd.c:466-470 | One data message within window and packet limit goes out through the connection, paid for from the window, within the grant of the accounts, and part of the replies that are due |
| Channel.Conn.SendPiece | firmware/components/oyobyok_sshd/oyobyok_sshd.c:460-470 | While the window of the client is closed, packets are handled; then as much as window and packet limit allow goes out |
| Channel.Conn.SendData | firmware/components/oyobyok_sshd/oyobyok_sshd.c:459-473 | All bytes are sent in order; every piece respects the limit and the grant that the packets so far give; packets handled while blocked only add to the input; if it fails midway the log still keeps what it promises |
| Channel.Conn.SendReply | firmware/components/oyobyok_sshd/oyobyok_sshd.c:433-443 | Length and reply reach the client whole, on the one-send and the two-send path |
| Channel.Conn.UseWindow | firmware/components/oyobyok_sshd/oyobyok_sshd.c:508-509 | The window is what was offered in sent packets less what was received, modulo 2^32; an adjustment is sent exactly when half of it is used up |
| Channel.Consumed | firmware/components/oyobyok_sshd/oyobyok_sshd.c:508-509 | Taking bytes and enlarging keep the window in [131072, 393216) for a client that keeps to it |
| Channel.Conn.OnData | firmware/components/oyobyok_sshd/oyobyok_sshd.c:503-511 | Data is kept once the subsystem runs, exactly and in order; refused exactly if a field is missing or there is no room |
| Channel.Conn.Keep | firmware/components/oyobyok_sshd/oyobyok_sshd.c:506-509 | Data for which there is room is stored behind what waits and taken off the window |
| Channel.Conn.OnOpen | firmware/components/oyobyok_sshd/oyobyok_sshd.c:484-493 | One session; the limits are the fields of the request, the packet limit at least 1024; refused exactly if a field is missing |
| Channel.Conn.OnRequest | firmware/components/oyobyok_sshd/oyobyok_sshd.c:494-501 | The subsystem starts once, and the answer says whether this request did it |
| Channel.Conn.OnAdjust | firmware/components/oyobyok_sshd/oyobyok_sshd.c:502 | The window grows by the field, modulo 2^32 |
| Channel.Conn.OnClose | firmware/components/oyobyok_sshd/oyobyok_sshd.c:512-521 | End of file and close are sent once |
| Channel.Conn.DoKex | firmware/components/oyobyok_sshd/oyobyok_sshd.c:481 | A key exchange in the session is done by the connection, packet by packet, and changes nothing of the channel: its packets are only added to the history |
| Channel.Conn.Absorb | firmware/components/oyobyok_sshd/oyobyok_sshd.c:475-525 | What each packet makes the server send, exactly; windows, limits, number and subsystem are what the log of packets says, and only channel data changes the input; with room in the socket a packet is refused exactly if a field is missing or its data overflows the input |
| Channel.Conn.HandlePacket | firmware/components/oyobyok_sshd/oyobyok_sshd.c:475-525 | Between packets everything that could be answered is answered; while blocked, a packet only adds to the input; its own answer is sent first, the log grows by it and the windows match the log; it fails only with a failed connection, a closing client or a refusal that has its reason |
| Channel.Conn.Drain | firmware/components/oyobyok_sshd/oyobyok_sshd.c:445-455 | Every complete request is answered in order, also those that arrive meanwhile, and no complete request is left |
| Channel.Conn.ServeClient | firmware/components/oyobyok_sshd/oyobyok_sshd.c:567-570 | The invariants, with all windows tied to the log of packets, hold over the whole session, and what the log promises also when it fails; the session ends only when the client closes, the connection fails or something is refused for a reason |
| Channel.OnlyTheStreamMatters | firmware/components/oyobyok_sshd/oyobyok_sshd.c:433-525 | However the stream was cut and whatever arrived while blocked, the channel carried exactly the replies to its frames, in order, and the leftover bytes wait |
| Channel.NothingUnearned | firmware/components/oyobyok_sshd/oyobyok_sshd.c:433-525 | At every moment, also in a session that failed in the middle of a reply: what the client has got is the beginning of the replies to the requests that had been read by then |
| Channel.RoomForOneMore | firmware/components/oyobyok_sshd/oyobyok_sshd.c:506 | Between packets the input has room for any packet, so only a blocked reply can overflow it |
| Channel.WindowsConserved | firmware/components/oyobyok_sshd/oyobyok_sshd.c:460-509 | From the packets alone: bytes sent plus window are the grant, bytes fed plus window are the offer, and the window of the server stays in range |
| Channel.NeverBeyondTheGrant | firmware/components/oyobyok_sshd/oyobyok_sshd.c:460-470 | Every data message went to the number that the client gave, was no larger than it takes, and did not go beyond what had been granted when it was sent; also in a session that failed |
| Channel.ExactWhenSmall | firmware/components/oyobyok_sshd/oyobyok_sshd.c:502 | Grants that stay below 2^32 never make the accounts inexact |
| SftpPath.NormPath | firmware/components/oyobyok_sshd/oyobyok_sftpd.c:69-82 | The buffer holds the limited specification and a NUL, for every input and buffer size; a name is told apart by its counted bytes and printed up to its first NUL; `PathLaws.UpIsPrinted` and `PathLaws.DotIsNothing` say on paths what ".." and "." do |
| SftpPath.WriteParts | firmware/components/oyobyok_sshd/oyobyok_sftpd.c:79-81 | The texts of the names are printed until one does not fit, which is then cut |
| PathLaws.ComponentsSplit | firmware/components/oyobyok_sshd/oyobyok_sftpd.c:71-74 | A slash separates components, and empty ones do not count |
| PathLaws.ComponentsOfJoin | firmware/components/oyobyok_sshd/oyobyok_sftpd.c:80 | Texts that were joined with slashes are split into the same texts, but for the empty ones |
| PathLaws.ShownIsCut | firmware/components/oyobyok_sshd/oyobyok_sftpd.c:80 | Whatever fits the buffer is some of the texts whole and the beginning of one more |
| PathLaws.Confined | firmware/components/oyobyok_sshd/oyobyok_sftpd.c:69-82 | Walking the result never rises above the root exactly when, among the printed names, every ".." has a name before it to take back; it ends as deep as names outnumber ".." |
| PathLaws.HarmlessConfined | firmware/components/oyobyok_sshd/oyobyok_sftpd.c:69-82 | If no NUL cuts a stored name to nothing, one dot or two, the walk never rises, however names, depth or length were cut, for every buffer size but 4 |
| PathLaws.NulFreeIsHarmless | firmware/components/oyobyok_sshd/oyobyok_sftpd.c:69-82 | Paths without NUL are such paths |
| PathLaws.NulMisleads | firmware/components/oyobyok_sshd/oyobyok_sftpd.c:75-80 | Two dots and a NUL are stored as a name and printed as "..", which leads out of the root; two names that start with a NUL are printed as "//", which is the root |
| PathLaws.NotConfinedInFour | firmware/components/oyobyok_sshd/oyobyok_sftpd.c:79-80 | With a buffer of 4 bytes the name "..a" is cut to "/..", which leads out |
| PathLaws.Idempotent | firmware/components/oyobyok_sshd/oyobyok_sftpd.c:69-82 | Normalising again changes nothing exactly when no NUL and no end of the buffer has left nothing, one dot or two of a printed name (or there is one slash only) |
| PathLaws.OnlyTheCutHurts | firmware/components/oyobyok_sshd/oyobyok_sftpd.c:69-82 | Without such a NUL this is so exactly when the last printed name keeps more than that |
| PathLaws.NotIdempotent | firmware/components/oyobyok_sshd/oyobyok_sftpd.c:69-82 | With the buffer of 400 bytes, three inputs of eight names that lose their last name when normalised again, and one of them the name before it |
| PathLaws.UncutSettles | firmware/components/oyobyok_sshd/oyobyok_sftpd.c:69-82 | When nothing is cut, one pass settles |
| PathLaws.Uncut | firmware/components/oyobyok_sshd/oyobyok_sftpd.c:69-82 | When nothing is cut the result is split, resolve, join; `PathLaws.UpTakesBack` fixes what resolving means |
| PathLaws.NormalSettles | firmware/components/oyobyok_sshd/oyobyok_sftpd.c:69-82 | The simple form settles in one pass and has no "." or ".." left |
| PathLaws.UpTakesBack | firmware/components/oyobyok_sshd/oyobyok_sftpd.c:75-77 | For all paths a and b and every plain name c: a/c/../b is a/b, and /../b is /b, in the simple form |
| PathLaws.DotIsNothing | firmware/components/oyobyok_sshd/oyobyok_sftpd.c:74-75 | a/./b and a//b are a/b, in the simple form, in what is stored and in what is printed |
| PathLaws.UpWithLimits | firmware/components/oyobyok_sshd/oyobyok_sftpd.c:76-77 | In the program ".." takes back the name before it exactly when the stack of 24 had room for that name; on a full stack it takes the last one that was stored |
| PathLaws.UpIsPrinted | firmware/components/oyobyok_sshd/oyobyok_sftpd.c:69-82 | The same of what is printed, for every size of the buffer and whatever is cut |
| PathLaws.PlainStored | firmware/components/oyobyok_sshd/oyobyok_sftpd.c:77 | Of a list of plain names the first 24 are stored, each up to 63 bytes |
| SftpPath.FullPath | firmware/components/oyobyok_sshd/oyobyok_sftpd.c:83-85 | The root directory and the path always fit the buffer |
| PathLaws.BelowExactly | firmware/components/oyobyok_sshd/oyobyok_sftpd.c:83-85 | The path given to the file system goes to the root directory and stays strictly below it exactly when every printed ".." has a name before it to take back and a name is left over |
| PathLaws.StrictlyBelow | firmware/components/oyobyok_sshd/oyobyok_sftpd.c:69-82 | Without a harmful NUL that is so for every path but "/", even when its last name was cut to two dots |
| SftpPath.Locate | firmware/components/oyobyok_sshd/oyobyok_sftpd.c:124-125 | Normalising and prefixing, as C strings |
| SftpTable.Disk.Close | firmware/components/oyobyok_sshd/oyobyok_sftpd.c:42 | An object is closed only while it is open, so never twice |
| SftpTable.Table.AllocHandle | firmware/components/oyobyok_sshd/oyobyok_sftpd.c:100 | The first free slot, or none exactly when all are used; the client sees no change |
| SftpTable.Table.GetHandle | firmware/components/oyobyok_sshd/oyobyok_sftpd.c:101-105 | Exactly the four-byte names of used slots |
| SftpTable.Table.Release | firmware/components/oyobyok_sshd/oyobyok_sftpd.c:151 | Giving up a marked slot restores the table |
| SftpTable.Table.HoldFile | firmware/components/oyobyok_sshd/oyobyok_sftpd.c:183-186 | The slot owns the new file; open objects and used slots still correspond one to one |
| SftpTable.Table.HoldDir | firmware/components/oyobyok_sshd/oyobyok_sftpd.c:150-152 | The slot owns the new directory; open objects and used slots still correspond one to one |
| SftpTable.Table.CloseHandle | firmware/components/oyobyok_sshd/oyobyok_sftpd.c:212-214 | The object of the handle is closed, and only that one |
| SftpTable.Table.Free | firmware/components/oyobyok_sshd/oyobyok_sftpd.c:40-44 | At the end nothing is open |
| SftpTable.ReadOn | firmware/components/oyobyok_sshd/oyobyok_sftpd.c:160 | Reading on in a directory keeps the correspondence |
| SftpServer.SkipAttrs | firmware/components/oyobyok_sshd/oyobyok_sftpd.c:60-67 | The attributes of a request are skipped field by field, with any number of extension pairs |
| SftpProtocol.EntrySize | firmware/components/oyobyok_sshd/oyobyok_sftpd.c:163-164 | An entry of a listing takes at most 702 bytes |
| SftpProtocol.BatchFits | firmware/components/oyobyok_sshd/oyobyok_sftpd.c:159-165 | A batch has at most 32 entries and fits the buffer; it is empty only when no entry is left |
| SftpProtocol.BatchesAreAll | firmware/components/oyobyok_sshd/oyobyok_sftpd.c:155-169 | While the file system answers each request as it may: the batches until the end go through every name once and in order, and show exactly what could be looked up when it was its turn, 1 to 32 at a time |
| SftpProtocol.SteadyListing | firmware/components/oyobyok_sshd/oyobyok_sftpd.c:155-169 | If the answers stay the same, the batches together are the whole listing |
| SftpProtocol.ReplyFits | firmware/components/oyobyok_sshd/oyobyok_sftpd.c:113-241 | Whatever is asked, the reply fits the buffer and gives the id back |
| SftpProtocol.HandlesStay | firmware/components/oyobyok_sshd/oyobyok_sftpd.c:113-241 | A handle stands for the same object until it is closed; only opening takes a free one, the first |
| SftpProtocol.CallsAreCareful | firmware/components/oyobyok_sshd/oyobyok_sftpd.c:170-234 | A request makes at most one call that changes things: strictly below the root exactly when the printed names of its paths are, opened for writing or emptied only as asked, never renamed over an existing name |
| SftpProtocol.HarmlessIsContained | firmware/components/oyobyok_sshd/oyobyok_sftpd.c:69-85 | So it is for every path in which no NUL leaves nothing, one dot or two of a name, and for every path without NUL |
| SftpProtocol.StaysPlaced | firmware/components/oyobyok_sshd/oyobyok_sftpd.c:170-234 | One more request keeps all calls strictly below the root exactly when it makes none or is contained |
| SftpProtocol.NulLeavesTheRoot | firmware/components/oyobyok_sshd/oyobyok_sftpd.c:217-224 | Two requests with a NUL in the path that ask to remove what is not below the root, in every state of the server |
| SftpServer.Sftpd.OnRealPath | firmware/components/oyobyok_sshd/oyobyok_sftpd.c:123-129 | The normalised path twice, with attributes |
| SftpServer.Sftpd.OnStat | firmware/components/oyobyok_sshd/oyobyok_sftpd.c:130-136 | Attributes, or a status for the error |
| SftpServer.Sftpd.OnFStat | firmware/components/oyobyok_sshd/oyobyok_sftpd.c:137-143 | Attributes of the object of the handle |
| SftpServer.Sftpd.OnOpenDir | firmware/components/oyobyok_sshd/oyobyok_sftpd.c:146-154 | Success takes the first free handle for the new directory; every failure leaves the state as it was |
| SftpServer.Sftpd.OnOpen | firmware/components/oyobyok_sshd/oyobyok_sftpd.c:170-189 | The verdict of the flags and the file system; success takes the first free handle; every failure leaves the table as it was |
| SftpServer.Sftpd.OnRead | firmware/components/oyobyok_sshd/oyobyok_sftpd.c:190-201 | At most 32000 bytes, with the length written over its placeholder; `SftpClient.ReadIsAnswered` says which bytes, and `SftpServer.Sftpd.Download` what they add up to |
| SftpServer.Sftpd.OnWrite | firmware/components/oyobyok_sshd/oyobyok_sftpd.c:202-208 | The bytes are given to the file of the handle, at the offset, if it can be sought; one status |
| SftpServer.Sftpd.OnClose | firmware/components/oyobyok_sshd/oyobyok_sftpd.c:209-216 | The handle and its object are gone, and nothing else |
| SftpServer.Sftpd.OnChange | firmware/components/oyobyok_sshd/oyobyok_sftpd.c:217-224 | The file system is asked once, and not at all for a path that is normalised to "/" |
| SftpServer.Sftpd.OnRename | firmware/components/oyobyok_sshd/oyobyok_sftpd.c:225-234 | The file system is asked once, and not at all for a path that is normalised to "/" or a target that exists |
| SftpServer.Sftpd.PutEntries | firmware/components/oyobyok_sshd/oyobyok_sftpd.c:159-165 | The loop takes exactly the names of the next batch and writes exactly its entries |
| SftpServer.Sftpd.OnReadDir | firmware/components/oyobyok_sshd/oyobyok_sftpd.c:155-169 | The next batch with its count, or the end exactly when no entry is left |
| SftpServer.Sftpd.ListToTheEnd | firmware/components/oyobyok_sshd/oyobyok_sftpd.c:155-169 | Asking until the end, while the file system answers each request as it may, sends the batches as replies, then the end: every name was looked up once, in order, and shown if that succeeded |
| SftpClient.ListingReadsBack | firmware/components/oyobyok_sshd/oyobyok_sftpd.c:155-169 | A client that reads the count and then so many names, lines and attributes gets exactly the entries, and ends where the reply ends |
| SftpServer.Sftpd.Handle | firmware/components/oyobyok_sshd/oyobyok_sftpd.c:113-241 | Every request, whatever its bytes, has exactly the effect and the one reply that the server as a function gives it; the table stays sound; all calls stay strictly below the root exactly as long as requests that make one are contained |
| SftpClient.AttributesReadBack | firmware/components/oyobyok_sshd/oyobyok_sftpd.c:60-67 | Attributes with any flags, owner, times and extension pairs are read back, and no byte more |
| SftpClient.SkippedAsRead | firmware/components/oyobyok_sshd/oyobyok_sftpd.c:60-67 | Skipping the attributes of a request ends where a reader of them would end, for all bytes |
| SftpClient.RequestReadsBack | firmware/components/oyobyok_sshd/oyobyok_sftpd.c:113-241 | Every request that a client writes, by the numbers of the draft and with any attributes, is taken for what it meant |
| SftpClient.OtherKinds | firmware/components/oyobyok_sshd/oyobyok_sftpd.c:130-240 | LSTAT is taken for STAT and FSETSTAT for SETSTAT; kinds beyond RENAME are unknown |
| SftpClient.CutIsNoticed | firmware/components/oyobyok_sshd/oyobyok_sftpd.c:121-241 | Every request that is cut short behind its number is malformed, or asks about an empty handle if it is about a handle alone; attributes included |
| SftpClient.DigitsAreDecimal | firmware/components/oyobyok_sshd/oyobyok_sftpd.c:97 | A size is shown as its decimal numeral |
| SftpClient.LineIsWhole | firmware/components/oyobyok_sshd/oyobyok_sftpd.c:94-98 | The line of an entry is never cut: kind, size with spaces before it, time and the whole name |
| SftpClient.ChildIsInside | firmware/components/oyobyok_sshd/oyobyok_sftpd.c:161 | An entry is looked up in its directory |
| SftpClient.StatIsAnswered | firmware/components/oyobyok_sshd/oyobyok_sftpd.c:123-143 | STAT, FSTAT and REALPATH as the client reads them: size, times and octal mode of the object, or the code for the errno |
| SftpClient.OpenIsAnswered | firmware/components/oyobyok_sshd/oyobyok_sftpd.c:170-189 | The handle that the client reads in the reply to OPEN stands for the new file, opened as the flags say; otherwise the code says why |
| SftpClient.OpenDirIsAnswered | firmware/components/oyobyok_sshd/oyobyok_sftpd.c:146-154 | The handle in the reply to OPENDIR stands for the new directory with its names |
| SftpClient.ReadIsAnswered | firmware/components/oyobyok_sshd/oyobyok_sftpd.c:190-201 | READ gives the bytes of the file from the offset on, as many as asked for and there, 32000 at most; end of file exactly when there are none or none were asked for |
| SftpClient.ListingIsAnswered | firmware/components/oyobyok_sshd/oyobyok_sftpd.c:155-169 | READDIR gives the entries of the next batch with their lines and attributes, or the end |
| SftpClient.WriteIsAnswered | firmware/components/oyobyok_sshd/oyobyok_sftpd.c:202-208 | OK after WRITE is read exactly when these bytes were given to the file of the handle at this offset and taken |
| SftpClient.CloseIsAnswered | firmware/components/oyobyok_sshd/oyobyok_sftpd.c:209-216 | OK after CLOSE is read exactly when there was such a handle; it is free then, its object closed, and no other handle touched |
| SftpClient.ChangeIsAnswered | firmware/components/oyobyok_sshd/oyobyok_sftpd.c:217-234 | OK after REMOVE, MKDIR, RMDIR and RENAME is read exactly when the file system did it to these paths; otherwise the code of the errno or of the refusal |
| SftpClient.OthersAreAnswered | firmware/components/oyobyok_sshd/oyobyok_sftpd.c:118-241 | Version 3, OK for SETSTAT, and the codes for unknown and malformed requests |
| SftpClient.AskingChangesNothing | firmware/components/oyobyok_sshd/oyobyok_sftpd.c:123-145 | Asking changes nothing |
| SftpServer.Sftpd.Download | firmware/components/oyobyok_sshd/oyobyok_sftpd.c:190-201 | A client that reads on behind what it has until the end of file has exactly the contents of the file, whatever amounts it asks for |
| SftpServer.Sftpd.Upload | firmware/components/oyobyok_sshd/oyobyok_sftpd.c:202-208 | A client that writes chunk behind chunk and is told OK each time has given the file exactly these bytes at these places |
| SftpSession.BelowIfContained | firmware/components/oyobyok_sshd/oyobyok_sftpd.c:113-241 | After any requests all calls were for something strictly below the root exactly when the requests that made them were contained |
| SftpSession.SessionIsSafe | firmware/components/oyobyok_sshd/oyobyok_sshd.c:433-525 | The whole session, from bytes to bytes: the client gets the replies of the SFTP server to what it sent; the file system was only asked to open or change things strictly below the root exactly when the requests that made it do so were contained |
| Unicode.LegalIsCharacter | firmware/components/libgit2/deps/ntlmclient/unicode_builtin.c:183-206 | What the test accepts is the encoding of a character, so the surrogate and above-0x10FFFF branches are unreachable |
| Unicode.CharacterIsLegal | firmware/components/libgit2/deps/ntlmclient/unicode_builtin.c:183-206 | The encoding of every character is accepted, with the length its first byte announces |
| Unicode.Gather | firmware/components/libgit2/deps/ntlmclient/unicode_builtin.c:228-236 | Adding bytes six bits at a time and taking the offset off gives the code point |
| Unicode.Refused | firmware/components/libgit2/deps/ntlmclient/unicode_builtin.c:216-224 | Whatever is refused is not well-formed |
| Unicode.ConvertUTF8toUTF16 | firmware/components/libgit2/deps/ntlmclient/unicode_builtin.c:208-277 | Source and target hold the same characters up to where it stops, so that it can go on later; errors mean the input is not well-formed |
| Unicode.Utf8To16 | firmware/components/libgit2/deps/ntlmclient/unicode_builtin.c:291-407 | Succeeds exactly on well-formed input (section 4 of RFC 3629), never grows the buffer, and has room for the terminator |
| Unicode.ConvertUTF16toUTF8 | firmware/components/libgit2/deps/ntlmclient/unicode_builtin.c:102-168 | The same for the way back, leniently; it never reports an illegal source |
| Unicode.WritePoint | firmware/components/libgit2/deps/ntlmclient/unicode_builtin.c:157-163 | The bytes of a code point, written from the last to the first |
| Unicode.Utf16To8 | firmware/components/libgit2/deps/ntlmclient/unicode_builtin.c:291-407 | Succeeds exactly when no high surrogate waits at the end and the largest size that growth reaches holds result and terminator; the result is that of one pass |
| Unicode.PointsInverts | firmware/components/libgit2/deps/ntlmclient/unicode_builtin.c:114-142 | Whole characters come back from their units |
| Unicode.SurrogatePair | firmware/components/libgit2/deps/ntlmclient/unicode_builtin.c:242-272 | A character is one unit, or a high and a low surrogate with ten bits each of what is above 2^16 |
| Unicode.BackAndForth | firmware/components/libgit2/deps/ntlmclient/unicode_builtin.c:208-277 | Converting to UTF-16 and back gives the original bytes |
| ChunkedBody.MulAddExact | firmware/components/libgit2/deps/llhttp/llhttp.c:765-789 | The two overflow tests together refuse exactly the sums of 2^64 and more |
| ChunkedBody.SizeIsExact | firmware/components/libgit2/deps/llhttp/llhttp.c:1764-1877 | The size is the number that the letters 0-9, a-f and A-F spell, however many digits it has; it is refused exactly when it reaches 2^64 |
| ChunkedBody.NumeralIsRead | firmware/components/libgit2/deps/llhttp/llhttp.c:1764-1877 | Every number below 2^64 is read from its hexadecimal numeral, in small letters or capitals and with any zeros before it, and every other is refused |
| ChunkedBody.NoDigit | firmware/components/libgit2/deps/llhttp/llhttp.c:1764-1877 | A byte that is none of these letters is no digit: it cannot begin a size, and it ends one |
| ChunkedBody.Classes | firmware/components/libgit2/deps/llhttp/llhttp.c:1472-1675 | The characters of a token, and the control characters and quotes that content and quoted strings leave out |
| Chunked.Parser.VisitName | firmware/components/libgit2/deps/llhttp/llhttp.c:1652-1698 | Extension names |
| Chunked.Parser.VisitValue | firmware/components/libgit2/deps/llhttp/llhttp.c:1583-1630 | Extension values |
| Chunked.Parser.VisitQuoted | firmware/components/libgit2/deps/llhttp/llhttp.c:1472-1559 | Quoted values with escapes |
| Chunked.Parser.VisitPlain | firmware/components/libgit2/deps/llhttp/llhttp.c:1243-1337 | The states without a span: line ends, chunk header and the start of the data |
| Chunked.Parser.VisitSize | firmware/components/libgit2/deps/llhttp/llhttp.c:1764-1877 | Another digit, or what follows the size; `ChunkedBody.NumeralIsRead` says what the digits are worth |
| Chunked.Parser.VisitBody | firmware/components/libgit2/deps/llhttp/llhttp.c:1283-1309 | As much data as there is, in one span, equals one byte at a time |
| Chunked.Parser.VisitFieldStart | firmware/components/libgit2/deps/llhttp/llhttp.c:3138-3160 | The first byte of a trailer field, or the end of the trailer |
| Chunked.Parser.VisitField | firmware/components/libgit2/deps/llhttp/llhttp.c:2909-3126 | The name of a field, which may turn out to be one of the special names |
| Chunked.Parser.VisitGeneral | firmware/components/libgit2/deps/llhttp/llhttp.c:2822-2907 | Any other name; a byte that cannot stand in it fails and loses the open span |
| Chunked.Parser.VisitContentStart | firmware/components/libgit2/deps/llhttp/llhttp.c:2767-2803 | The blanks before the content of a field |
| Chunked.Parser.VisitContent | firmware/components/libgit2/deps/llhttp/llhttp.c:2608-2666 | The content of a field, in one span |
| Chunked.Parser.VisitAfterField | firmware/components/libgit2/deps/llhttp/llhttp.c:2156-2213 | After the line of a field: the field is complete, and another one or the end follows |
| Chunked.Parser.VisitLine | firmware/components/libgit2/deps/llhttp/llhttp.c:2098-2114 | Line ends in the trailer; the last one completes the last chunk and the message |
| Chunked.Parser.Execute | firmware/components/libgit2/deps/llhttp/llhttp.c:10136-10168 | A piece of input has the effect of its bytes one by one, with an open span reported up to the end of the piece, but for an invalid field name |
| Chunked.Parser.ExecuteAll | firmware/components/libgit2/deps/llhttp/llhttp.c:10136-10168 | The state depends on the input only, not on where it is cut, and so do the reports, but for what an invalid field name loses |
| Chunked.RunAppend | firmware/components/libgit2/deps/llhttp/llhttp.c:10136-10168 | Running over a concatenation is running twice |
| Chunked.CutsLoseLess | firmware/components/libgit2/deps/llhttp/llhttp.c:10136-10168 | Cutting the input never makes more of an invalid name go unreported |
| Chunked.CutsMatter | firmware/components/libgit2/deps/llhttp/llhttp.c:8626-8634 | All cuts give the same reports exactly when nowhere in the input a field name that was begun meets a byte that neither goes on with it nor ends it |
| Chunked.MissingIfBroken | firmware/components/libgit2/deps/llhttp/llhttp.c:8626-8634 | In one piece, something goes unreported exactly then |
| Chunked.NameForgotten | firmware/components/libgit2/deps/llhttp/llhttp.c:8626-8634 | "a(" is such an input: the name is reported if the cut comes after the first byte, and not if there is none |
| ChunkedBody.ExtensionRun | firmware/components/libgit2/deps/llhttp/llhttp.c:1472-1762 | An extension is reported with its name and its value and leaves the size alone |
| ChunkedBody.StandardIsGood | firmware/components/libgit2/deps/llhttp/llhttp.c:1472-1762 | All extensions of section 4.1.1 of RFC 7230 are among those that the parser takes |
| ChunkedBody.SpecialEnds | firmware/components/libgit2/deps/llhttp/llhttp.c:2927-3126 | No special name goes on after another one, and none has a colon in it |
| ChunkedBody.NameRun | firmware/components/libgit2/deps/llhttp/llhttp.c:2822-3136 | Any name is reported byte by byte, however much of a special name it starts with |
| ChunkedBody.TrailerRun | firmware/components/libgit2/deps/llhttp/llhttp.c:2098-3160 | A field of the trailer is reported with its name and its content, and leaves the parser where another may follow |
| ChunkedBody.BodyIsDecoded | firmware/components/libgit2/deps/llhttp/llhttp.c:1243-1337 | A whole chunked body, with any spelling of its sizes, any extensions and any trailer without special fields, is reported exactly, extensions included, and ends the message |
| ChunkedBody.ReadBody | firmware/components/libgit2/deps/llhttp/llhttp.c:10136-10168 | The same for the parser, fed in any pieces |
| ChunkedParts.Parsed | firmware/components/libgit2/deps/llhttp/llhttp.c:1243-3160 | As long as parsing goes on, what was read is the beginning of a well-formed message, and the state says where in it |
| ChunkedParts.CompletesExactly | firmware/components/libgit2/deps/llhttp/llhttp.c:1243-3160 | The message is complete exactly with the last byte of a well-formed one, for all bytes: nothing malformed is let through |
| ChunkedParts.OddExtensions | firmware/components/libgit2/deps/llhttp/llhttp.c:1630-1725 | Extensions that the parser takes and the standard does not have: without a name, with an empty value, or with a quoted string right behind a token |
| Matcher.Place.Match | firmware/components/libgit2/deps/llhttp/llhttp.c:232-326 | The matcher finds what the scan finds and keeps its place when the input pauses |
| Matcher.CutAnywhere | firmware/components/libgit2/deps/llhttp/llhttp.c:232-326 | Cutting the input anywhere makes no difference to the outcome |
| Matcher.OutcomeMeans | firmware/components/libgit2/deps/llhttp/llhttp.c:232-326 | Complete, mismatch and pause mean equality, first difference and a proper prefix |
| Matcher.ShortcutIsRight | firmware/components/libgit2/deps/llhttp/llhttp.c:266-296 | Setting bit 5 agrees with lowering capitals for sequences of small letters, such as the one it is used for |

## Left out

- Connection.Conn.ReadPacket: with encryption on, the length word 2^32-4 makes the program decrypt a negative number of bytes; that has no meaning to model, and the model refuses the packet there (`Transport.Undefined`, `Transport.Open`).
- Connection.Conn.ReadBody: it is not called for an encrypted packet with that word, for the same reason.
- EdwardsLaws.AddIsAffine: associativity of the group law is not proved; statements that need a group take it as a parameter.
- Encodings.Inverse: primality of p enters as the premise that p has no zero divisors; `Completeness`, `Encodings` and `Acceptance` also take the non-squareness of d as a premise where they say so.
- GroupOrder.ModL: the product of a signed limb and an unsigned byte of the order is computed without overflow, so the unsigned conversion in C does not show.
- SftpServer.Sftpd.Handle: flushing, buffering, the text of the time in a listing and the contents of files are answers of the file system.
- Connection.Conn.DoKex: the elliptic curve, the signature and its DER form are functions; the texts of the negotiation failure are shortened.
- Channel.Conn.constructor: the channel starts when the client is authenticated; that only packets with numbers below 80 went before is its premise.
- Channel.WindowsConserved: the conservation of the grant holds until an adjustment wraps around 2^32, and the range of the window for a client that keeps to it; the log of packets says whether one did.
- Unicode.Utf8To16: the two bytes of a unit are one element, so odd-length buffers and byte order do not appear, and lengths are not bounded by the address space.
- Chunked.Parser.Execute: lenient flags, pauses, callbacks that fail, the content of the five special trailer fields (connection, content-length, proxy-connection, transfer-encoding, upgrade) and what follows the message; in those two places the bytes are handed on as they are.
- Failing allocations, timeouts, the stop flag and the accept loop.
- User authentication, host key files and the algorithms of mbedTLS.
- Salsa20, crypto_box and X25519, which the firmware does not call.
- Signing.CryptoSignKeypair: the random bytes of the seed are a parameter. Parts of one buffer that the C code hands on as pointers are copied.
- Signing.GenuineIsAccepted: takes the group that the formulas represent and the order of the base point as parameters, like the other statements about groups.
- Transport.OutOfPlaceIsRefused: says that acceptance would show two messages with the same MAC, because no MAC of 32 bytes tells all messages apart; `SshClient.SameHashSameExchange` says the same of the hash.
- The git engine, the SSH client, the user interface and the drivers.
- The rest of the HTTP parser, of ntlmclient and of the other libraries.
