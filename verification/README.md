# Verified models of the two-party TLS circuits and of private retrieval

Two parts of the repository compute values that can be reasoned about exactly, and this project proves what they
compute.

**The two-party circuits** (`tutorials/surf-impl/src/2pc`) are Boolean circuits built gate by gate. A wire is a `bool`;
`xor_gate`, `and_gate` and `not_gate` are `!=`, `&&` and `!`. The AES-128 block cipher and the SHA-256 compression
function are parameters, so every theorem holds for any function in their place. Proved here: both GF(2^128)
multipliers are the product modulo x^128+x^7+x^2+x+1, and that modulus arithmetic is a ring with exact remainders; the
table of powers; the shares of GHASH and the GCM tag they add up to, with the byte order the key must have; the tag,
verification, keystream and encryption circuits with their all-or-nothing gating, for any number of blocks; SHA-256
padding and chaining, HMAC, HKDF and the TLS 1.3 label encoding; and the combined handshake circuit against section 7.1
of RFC 8446.

**Private retrieval** (`tutorials/frodo-pir-fast`) is LWE-based retrieval over wrapping 32-bit words. Proved here: the
matrix object, with its in-place updates; the exact condition under which rounding returns the wanted entry; the exact
noise bound, in both directions; what every run of queries consumes and returns, on values and on the objects; and the
way of a record into the database and out again, with the exact condition under which it survives.

## Layout

| module | holds |
|---|---|
| `Bits`, `Endian`, `Numerals` | bundles of wires, their reorderings, numbers on wires |
| `Gf128`, `LaneOps`, `GcmMult` | the field, the 32-wire lane operations, the multipliers and the table of powers |
| `Aes`, `Shares`, `GhashShares`, `GcmTag`, `Batch` | the AES circuits, the local evaluation of GHASH and everything built on them |
| `Sha256`, `Hkdf`, `HkdfLabel`, `KeySchedule` | hashing, key derivation and the handshake circuit |
| `LinearAlgebra`, `Matrices` | exact and wrapping linear algebra, the flat matrix object |
| `Rounding`, `Pir`, `PirProtocol` | decoding, runs of queries on values, the protocol objects |
| `Packing`, `Records`, `Retrieval` | records as rows of plaintexts, the format conversions, end-to-end retrieval |

Code that fills buffers or updates objects is a method on arrays or on a class, proved against a function on values;
the laws are lemmas about those functions, and each of them is also described wire by wire or byte by byte, without
naming it, by lemmas whose names end in `Wires`, `At` or `Is`. `IsHmac` and `IsExpandLabel` say that a function value is HMAC, or
HKDF-Expand-Label, over a given compression function, and `IsHash` that it is SHA-256; `HmacOver`, `LabelKdfOver` and
`HashOver` show that there always is one.

## Where the code and its description differ

- `ClientParams::new` (offline.rs:72-82) appends the sampled rows to vectors that already hold as many zeros, and
  `with_vector` keeps the longer vector, so the products read the zero rows. `New` follows the code. The run theorems
  are stated for every ternary secret and error, which covers sampled rows too; `FreshRunDecodes` states what holds
  for the zero rows.
- `bytes_from_u32_slice` (utils.rs:81-94) takes no bits from the last entry when the plaintext width divides the
  element size, so such records are in general lost (`LostRecord`). `RecordRoundTrip` and `DividedRecordRoundTrip` give
  the exact condition under which a record still comes back.
- The share and table circuits take the AES key in the raw circuit's byte order, the tag circuits in GCM's. The comment
  at ThreePartyHandshake.cpp:2652-2658 says that key shares must be byte-reversed on the way in. `HashKeyOfReversedShares`
  and `SharedPowersGiveTheTag` prove that this gives GCM; `HashKeyDiffers` and `SameWiresGiveTheTagExactly` say what
  happens without it.
- The rounding is correct for every choice of ternary errors only within a bound on the number of records.
  `ProtocolDecodesExactly` gives it; the sizes used at online.rs:96-101 are past it.
- The wire the verification circuits call `did_either_cheat` is 1 when the parties agree. The model keeps that value.
- Length fields of the HkdfLabel structure keep only their low bits when a length does not fit. `RoundTrip` says when
  they do.

## Model

| member | source | states |
|---|---|---|
| `Gf128.MulRing` | tutorials/surf-impl/src/2pc/DeriveCircuits.cpp:1867-1976 | the product both multipliers compute is commutative, associative, distributes over xor and has unit 1, for all 128-wire operands |
| `Gf128.ReduceIsRemainder` | tutorials/surf-impl/src/2pc/DeriveCircuits.cpp:1958-1974 | the residue of a polynomial of any length is r if and only if the polynomial differs from r by a multiple of x^128+x^7+x^2+x+1 |
| `Gf128.MulX128` | tutorials/surf-impl/src/2pc/DeriveCircuits.cpp:1958-1974 | multiplying any element by x^128 is multiplying it by x^7+x^2+x+1 |
| `GcmMult.ClmulAt` | tutorials/surf-impl/src/2pc/DeriveCircuits.cpp:1774-1809 | coefficient k of the unreduced product is the parity of the pairs of wires that meet at k |
| `GcmMult.Pclmulqdq` | tutorials/surf-impl/src/2pc/DeriveCircuits.cpp:1774-1809 | the two index-range loops compute the full carry-less product of two 64-wire words, top coefficient 0 |
| `GcmMult.KaratsubaMiddle` | tutorials/surf-impl/src/2pc/DeriveCircuits.cpp:1944-1957 | the third half-width product less the other two is the cross product |
| `GcmMult.Karatsuba` | tutorials/surf-impl/src/2pc/DeriveCircuits.cpp:1944-1957 | three half-width products, the middle one split by byte shifts, recombine into the whole 256-wire product |
| `GcmMult.LaneReduceIsReduce` | tutorials/surf-impl/src/2pc/DeriveCircuits.cpp:1958-1974 | shifting within 32-wire lanes, rotating the lanes (147) and masking computes the residue of any 256-wire polynomial |
| `GcmMult.KaratsubaMult` | tutorials/surf-impl/src/2pc/DeriveCircuits.cpp:1935-1976 | the Karatsuba multiplier with lane-wise reduction computes the field product of every pair of operands |
| `GcmMult.ShiftReduce` | tutorials/surf-impl/src/2pc/DeriveCircuits.cpp:1867-1915 | rotating by one wire, clearing wire 0 and xoring the gated tail multiplies by x |
| `GcmMult.NaiveMult` | tutorials/surf-impl/src/2pc/DeriveCircuits.cpp:1867-1915 | the bit-serial multiplier computes the same field product |
| `GcmMult.NextRow` | tutorials/surf-impl/src/2pc/DeriveCircuits.cpp:2089-2108 | one step of the table recurrence multiplies a row by x and leaves the other rows alone |
| `GcmMult.ShiftTable` | tutorials/surf-impl/src/2pc/DeriveCircuits.cpp:2089-2108 | row i of the table is H times x^i, reduced |
| `GcmMult.PowerStep` | tutorials/surf-impl/src/2pc/DeriveCircuits.cpp:2110-2128 | block b becomes H times block b-1; everything outside block b is unchanged |
| `GcmMult.Powers` | tutorials/surf-impl/src/2pc/DeriveCircuits.cpp:2089-2128 | for any number of blocks, block k is H^(k+1) |
| `LaneOps.ShiftEpi32At` | tutorials/surf-impl/src/2pc/CircuitSynthesis.cpp:882-917 | which input wire a lane shift brings to each output wire, per lane, in both directions |
| `LaneOps.XorSi128` | tutorials/surf-impl/src/2pc/CircuitSynthesis.cpp:809-817 | wire-by-wire xor of two 128-wire vectors |
| `LaneOps.AndSi128` | tutorials/surf-impl/src/2pc/CircuitSynthesis.cpp:950-960 | wire-by-wire and |
| `LaneOps.AndnotSi128` | tutorials/surf-impl/src/2pc/CircuitSynthesis.cpp:974-985 | wire-by-wire and with the first operand inverted |
| `Endian.ChangeEndianInternal` | tutorials/surf-impl/src/2pc/CircuitSynthesis.cpp:40-49 | the bits of every byte are reversed, and wires past the input are untouched |
| `Endian.ChangeEndianTwice` | tutorials/surf-impl/src/2pc/CircuitSynthesis.cpp:40-49 | reversing the bits of every byte is its own inverse, at any length |
| `Endian.ChangeEndianFourInto` | tutorials/surf-impl/src/2pc/CircuitSynthesis.cpp:61-82 | the four bytes of each of the eight words are reversed |
| `Endian.RearrangeSumBits` | tutorials/surf-impl/src/2pc/CircuitSynthesis.cpp:757-769 | reversing the bits of each byte and then the whole buffer, in place, reverses the order of the bytes |
| `Endian.ReverseBytesTwice` | tutorials/surf-impl/src/2pc/DeriveCircuits.cpp:2187-2191 | reversing the order of the bytes is its own inverse |
| `Endian.ChangeEndianAt` | tutorials/surf-impl/src/2pc/CircuitSynthesis.cpp:40-49 | wire r of byte q comes from wire 7-r of the same byte |
| `Endian.ReverseBytesAt` | tutorials/surf-impl/src/2pc/DeriveCircuits.cpp:2187-2191 | wire r of byte q comes from wire r of byte q counted from the end |
| `Endian.ChangeEndianFourAt` | tutorials/surf-impl/src/2pc/CircuitSynthesis.cpp:61-82 | wire r of byte k of a word comes from wire r of byte 3-k of the same word |
| `Aes.OrGate` | tutorials/surf-impl/src/2pc/DeriveCircuits.cpp:2154-2161 | an and gate and inverters make an or gate |
| `Aes.Equals` | tutorials/surf-impl/src/2pc/DeriveCircuits.cpp:2163-2179 | the output wire is 1 if and only if the two bundles are equal |
| `Aes.RevBytes128` | tutorials/surf-impl/src/2pc/DeriveCircuits.cpp:2187-2191 | the sixteen bytes come out in opposite order |
| `Aes.RevBits128` | tutorials/surf-impl/src/2pc/DeriveCircuits.cpp:2193-2197 | the bits of every byte come out in opposite order |
| `Aes.Encrypt` | tutorials/surf-impl/src/2pc/DeriveCircuits.cpp:2199-2206 | the reorderings around the raw circuit cancel its own, leaving the plain block cipher |
| `Aes.HiroseCommit` | tutorials/surf-impl/src/2pc/DeriveCircuits.cpp:2208-2241 | the two-call commitment: AES_r(B)+B, then AES_r(B+c)+B+c |
| `Aes.HiroseConstant` | tutorials/surf-impl/src/2pc/DeriveCircuits.cpp:2208-2241 | exactly wires 0, 1, 5, 6 and 120 of the public constant carry 1: the bytes 0x63, fourteen zeros, 0x01 |
| `Aes.HiroseHalves` | tutorials/surf-impl/src/2pc/DeriveCircuits.cpp:2208-2241 | a commitment equals 256 given wires if and only if AES_r(B)+B is their first half and AES_r(B+c)+B+c the second |
| `Shares.MultiplicativeSharesNaive` | tutorials/surf-impl/src/2pc/DeriveCircuits.cpp:1818-1933 | reveals the hash key times Bob's share, under Alice's mask, using the bit-serial multiplier |
| `Shares.MultiplicativeShares` | tutorials/surf-impl/src/2pc/DeriveCircuits.cpp:1978-2043 | reveals the same function of the same inputs, using the Karatsuba multiplier |
| `Shares.MultiplicativeShareWires` | tutorials/surf-impl/src/2pc/DeriveCircuits.cpp:1978-2043 | with Alice's mask off, each revealed wire is that of the hash key of the byte-reversed joined key times Bob's share |
| `Shares.AdditiveShares` | tutorials/surf-impl/src/2pc/DeriveCircuits.cpp:2045-2152 | for any n, block k of the result is H^(k+1), bits reversed within bytes, xored with both parties' masks |
| `GhashShares.GhashFirst` | tutorials/surf-impl/src/ssl/GHash.hpp:11-19 | chained GHASH is the sum of the blocks weighted by descending powers of the hash key |
| `GhashShares.GhashFromShares` | tutorials/surf-impl/src/ssl/GHash.hpp:11-19 | local sums over xor shares of the powers add up to GHASH, for every sequence of blocks |
| `GhashShares.MaskedPowerIsShared` | tutorials/surf-impl/src/2pc/DeriveCircuits.cpp:2130-2139 | stripping one mask from a revealed block leaves xor shares of the power between the parties |
| `GhashShares.RecordBlock` | tutorials/surf-impl/src/ssl/GHash.hpp:73-94 | block j of a record: additional data, then ciphertext, each zero-filled at its end, then both lengths in bits, most significant byte first |
| `GhashShares.DataWires` | tutorials/surf-impl/src/ssl/GHash.hpp:73-83 | wire i of data block j is wire 128j+i of the additional data, or of the ciphertext counted from its own first block, and 0 past the end of either |
| `GhashShares.LengthWires` | tutorials/surf-impl/src/ssl/GHash.hpp:84-92 | byte i of the last block is byte i of the bit length of the additional data, byte 8+i that of the ciphertext, most significant first |
| `GhashShares.NaturalWires` | tutorials/surf-impl/src/ssl/GHash.hpp:32-42 | the bits of every byte of a block are reversed on the way into the field |
| `GhashShares.ShareIsSum` | tutorials/surf-impl/src/ssl/GHash.hpp:96-103 | a party's part is the sum of block i of n times the share of power n-i |
| `GhashShares.LocalShare` | tutorials/surf-impl/src/ssl/GHash.hpp:58-107 | refuses exactly when there are too few powers, otherwise returns the party's part of the GHASH of the record, in GCM's bit order |
| `Shares.HashKeyIs` | tutorials/surf-impl/src/2pc/DeriveCircuits.cpp:2082-2087 | the hash key the share circuits compute is that of the byte-reversed joined key, for every cipher |
| `Shares.HashKeyOfReversedShares` | tutorials/surf-impl/src/ssl/ThreePartyHandshake.cpp:2652-2658 | key shares byte-reversed on the way in give the hash key of GCM, for every cipher |
| `Shares.HashKeyIsGcmExactly` | tutorials/surf-impl/src/ssl/ThreePartyHandshake.cpp:2652-2658 | key shares fed as they are give the hash key of GCM for every cipher if and only if the joined key is a byte palindrome |
| `Shares.HashKeyDiffers` | tutorials/surf-impl/src/mta/GCMShareIsolated.cpp:30-34 | a key and a cipher for which key shares fed as they are give another hash key |
| `GcmTag.TagWires` | tutorials/surf-impl/src/2pc/DeriveCircuits.cpp:2389-2430 | the tag wires are AES of the joined key on Alice's counter block, xored with both GHASH shares |
| `GcmTag.DeriveTag` | tutorials/surf-impl/src/2pc/DeriveCircuits.cpp:2389-2430 | the masked tag when the counter blocks agree, the bare mask otherwise, and the agreement byte |
| `GcmTag.DeriveVerify` | tutorials/surf-impl/src/2pc/DeriveCircuits.cpp:2479-2525 | passes if and only if counter blocks agree, server tags agree and the tag matches; the second byte is 1 when the parties agree |
| `GcmTag.DeriveVerifyCommit` | tutorials/surf-impl/src/2pc/DeriveCircuits.cpp:2577-2629 | passes if and only if verification passes and Alice's key share opens Bob's commitment |
| `GcmTag.VerifyAcceptsExactlyTheTag` | tutorials/surf-impl/src/2pc/DeriveCircuits.cpp:2389-2525 | of all server tags, verification accepts exactly the unmasked output of the tag circuit |
| `GcmTag.TagOnWires` | tutorials/surf-impl/src/2pc/DeriveCircuits.cpp:2389-2430 | the tag in terms of the input wires: key shares 0..128, Alice's counter block 128..256, GHASH shares 256..384 |
| `GcmTag.AgreeOnWires` | tutorials/surf-impl/src/2pc/DeriveCircuits.cpp:2503-2509 | the parties agree if and only if wires 128..256 and wires 384..512 of their inputs are equal |
| `GcmTag.AcceptsOnWires` | tutorials/surf-impl/src/2pc/DeriveCircuits.cpp:2479-2525 | verification accepts if and only if those wires are equal and wires 384..512 are the tag computed from the others |
| `GcmTag.KeyOpensOnWires` | tutorials/surf-impl/src/2pc/DeriveCircuits.cpp:2577-2629 | the commitment opens if and only if the two AES terms of Alice's key share are wires 640..768 and 768..896 of Bob's input |
| `GcmTag.TagIsMaskedGhash` | tutorials/surf-impl/src/2pc/DeriveCircuits.cpp:2331-2430 | with local parts over shares of the powers of any h as inputs, the circuit's tag is the encrypted counter block xored with GHASH under h |
| `GcmTag.SharedPowersGiveTheTag` | tutorials/surf-impl/src/ssl/ThreePartyHandshake.cpp:2646-2668 | key shares byte-reversed into the table circuit and as they are into the tag circuit: stripping, local weighting and the tag circuit give the tag of section 7.1 of NIST SP 800-38D, for every cipher, key, counter block and sequence of blocks |
| `GcmTag.GcmTagOnWires` | tutorials/surf-impl/src/ssl/GHash.hpp:21-31 | the tag of GCM wire by wire, with hash key, blocks and GHASH taken through the bit order of the field |
| `GcmTag.SameWiresGiveTheTagExactly` | tutorials/surf-impl/src/ssl/ThreePartyHandshake.cpp:2652-2658 | the same key wires in both circuits give that tag for every cipher, counter block and sequence of blocks if and only if the joined key is a byte palindrome |
| `GcmTag.TagRecord` | tutorials/surf-impl/src/2pc/DeriveCircuits.cpp:2045-2430 | table circuit, local evaluation by both parties and tag circuit put together: the unmasked result is the GCM tag of the record, or a refusal exactly when there are too few powers |
| `Batch.OpenSeed` | tutorials/surf-impl/src/2pc/DeriveCircuits.cpp:2882-2887 | the opening wire says whether Alice's seed opens Bob's commitment |
| `Batch.DeriveKeystreamBatch` | tutorials/surf-impl/src/2pc/DeriveCircuits.cpp:2869-2914 | for any n: AES_k(ctr)+AES_s(ctr) in every block and ok when the commitment opens and all counters agree, otherwise every output wire 0 and not ok |
| `Batch.DeriveEncBatch` | tutorials/surf-impl/src/2pc/DeriveCircuits.cpp:3039-3075 | for any n: counter-mode ciphertext in every block when all counters agree, otherwise every output wire 0 |
| `Batch.KeystreamDecrypts` | tutorials/surf-impl/src/2pc/DeriveCircuits.cpp:2869-3075 | ciphertext, keystream output and the mask rederived from the seed give back every plaintext block |
| `Batch.KeystreamOkOnWires` | tutorials/surf-impl/src/2pc/DeriveCircuits.cpp:2882-2897 | the ok byte is 1 if and only if all counter wires are equal and both halves of Bob's commitment are the AES terms of Alice's seed |
| `Batch.KeystreamOnWires` | tutorials/surf-impl/src/2pc/DeriveCircuits.cpp:2869-2914 | each keystream output wire in terms of the input wires: 0 unless the commitment opens and all counters agree |
| `Batch.EncOnWires` | tutorials/surf-impl/src/2pc/DeriveCircuits.cpp:3039-3075 | each ciphertext output wire in terms of the input wires: 0 unless all counters agree |
| `Sha256.GetKIsLeast` | tutorials/surf-impl/src/2pc/CircuitSynthesis.inl:8-23 | the padded length is a multiple of 512, and no smaller number of zeros achieves that |
| `Sha256.PaddedInjective` | tutorials/surf-impl/src/2pc/CircuitSynthesis.cpp:84-119 | no two messages whose length fits 64 bits are padded alike |
| `Sha256.PaddedWires` | tutorials/surf-impl/src/2pc/CircuitSynthesis.cpp:84-119 | every wire of the padded message: the message, a 1, zeros, then bit 63-k of the length at place k |
| `Sha256.PaddingInternal` | tutorials/surf-impl/src/2pc/CircuitSynthesis.cpp:84-119 | the buffer holds the padding of section 5.1.1 of FIPS 180-4 and is untouched past it |
| `Sha256.LengthField` | tutorials/surf-impl/src/2pc/CircuitSynthesis.cpp:84-119 | for inputs up to 8191 bits, 48 zeros and 16 length bits are the 64-bit length |
| `Sha256.ArrToBlock` | tutorials/surf-impl/src/2pc/CircuitSynthesis.cpp:126-151 | entry after entry, least significant bit first; nothing past the last entry changes |
| `Sha256.FoldChunks` | tutorials/surf-impl/src/2pc/CircuitSynthesis.cpp:181-248 | the compression function is folded over exactly the 512-wire chunks of the padded message, from the initial digest |
| `Sha256.Sha256Internal` | tutorials/surf-impl/src/2pc/CircuitSynthesis.cpp:181-248 | 256 wires at the given place hold the hash of the reordered, padded input; the rest is untouched |
| `Sha256.HashWires` | tutorials/surf-impl/src/2pc/CircuitSynthesis.cpp:181-248 | every wire of the hash: bits of each byte reversed on the way in, bytes of each word on the way out, the compression folded between |
| `Sha256.HashChunksOne` | tutorials/surf-impl/src/2pc/CircuitSynthesis.cpp:181-248 | the fold starts from the given digest |
| `Sha256.DigestWordIsRoot` | tutorials/surf-impl/src/2pc/CircuitSynthesis.cpp:153-167 | the initial words are the first 32 bits of the fractional parts of the square roots of the first eight primes |
| `Sha256.InitialDigestWires` | tutorials/surf-impl/src/2pc/CircuitSynthesis.cpp:153-167 | word i lies at wire 32i, least significant bit first |
| `Sha256.InputKeyXor` | tutorials/surf-impl/src/2pc/CircuitSynthesis.cpp:260-272 | the key is xored into the front of the buffer and nothing else changes |
| `Sha256.HmacInternal` | tutorials/surf-impl/src/2pc/CircuitSynthesis.cpp:274-321 | the output is HMAC of section 2 of RFC 2104, the inner digest written straight into the outer input |
| `Sha256.KeyPadWires` | tutorials/surf-impl/src/2pc/CircuitSynthesis.cpp:274-321 | each wire of a pad is the key wire, or 0 past the key, xored with the matching bit of the pad byte |
| `Sha256.HmacByPads` | tutorials/surf-impl/src/2pc/CircuitSynthesis.cpp:274-321 | HMAC is the hash of the outer pad and the hash of the inner pad and the data, the pads given wire by wire with 0x36 and 0x5c |
| `Sha256.HmacZeroPadsKey` | tutorials/surf-impl/src/2pc/CircuitSynthesis.cpp:274-321 | trailing zeros of a key do not change the result |
| `Hkdf.HkdfExtractInternal` | tutorials/surf-impl/src/2pc/CircuitSynthesis.cpp:336-361 | extraction of section 2.2 of RFC 5869; an empty salt is 256 zero wires |
| `Hkdf.ExtractIsHmac` | tutorials/surf-impl/src/2pc/CircuitSynthesis.cpp:336-361 | extraction is HMAC keyed with the salt, or with 256 zero wires when there is none |
| `Hkdf.CopyClipped` | tutorials/surf-impl/src/2pc/CircuitSynthesis.cpp:430-458 | copies a block up to the limit and reports whether the limit cut it |
| `Hkdf.ExpandStep` | tutorials/surf-impl/src/2pc/CircuitSynthesis.cpp:430-458 | each round extends the written stream by one block, clipped at the requested length, and touches nothing past it |
| `Hkdf.HkdfExpandInternal` | tutorials/surf-impl/src/2pc/CircuitSynthesis.cpp:377-458 | exactly 8L wires hold the first L bytes of T(1) T(2) ... of section 2.3 of RFC 5869, for every L, across the unrolled first round and both early exits; nothing past them changes |
| `Hkdf.FirstBlock` | tutorials/surf-impl/src/2pc/CircuitSynthesis.cpp:377-429 | the first block is the keyed hash of the info and the counter 1 |
| `Hkdf.NextBlock` | tutorials/surf-impl/src/2pc/CircuitSynthesis.cpp:430-458 | every other block is the keyed hash of the block before it, the info and its counter |
| `Hkdf.ExpandWires` | tutorials/surf-impl/src/2pc/CircuitSynthesis.cpp:377-458 | wire 256q+r of the output is wire r of block q+1 |
| `Hkdf.ExpandPrefix` | tutorials/surf-impl/src/2pc/CircuitSynthesis.cpp:377-458 | asking for fewer bytes gives a prefix of asking for more |
| `HkdfLabel.CopyLoop` | tutorials/surf-impl/src/2pc/CircuitSynthesis.cpp:476-484 | writes the low eight bits and returns the quotient by 256 |
| `HkdfLabel.LabelWires` | tutorials/surf-impl/src/2pc/CircuitSynthesis.cpp:486-547 | the buffer is filled exactly with the HkdfLabel encoding of section 7.1 of RFC 8446 |
| `HkdfLabel.EncodeOctets` | tutorials/surf-impl/src/2pc/CircuitSynthesis.cpp:486-547 | the structure byte by byte: two length bytes, the label length, 0x74 0x6c 0x73 0x31 0x33 0x20, the label, the context length, the context |
| `HkdfLabel.LabelIsOneHash` | tutorials/surf-impl/src/2pc/CircuitSynthesis.cpp:486-551 | up to 32 bytes of HKDF-Expand-Label are one keyed hash of those bytes, the context and the counter 1 |
| `HkdfLabel.RoundTrip` | tutorials/surf-impl/src/2pc/CircuitSynthesis.cpp:486-547 | parsing the encoding gives back length, label and context if and only if each fits its length field |
| `HkdfLabel.Injective` | tutorials/surf-impl/src/2pc/CircuitSynthesis.cpp:486-547 | requests whose lengths fit never share an encoding |
| `HkdfLabel.ExpandLabelInto` | tutorials/surf-impl/src/2pc/CircuitSynthesis.cpp:486-551 | the output is HKDF-Expand-Label; wires past it are untouched |
| `KeySchedule.SumModIsSum` | tutorials/surf-impl/src/2pc/CircuitSynthesis.hpp:432-447 | one conditional subtraction is addition modulo p |
| `KeySchedule.ReversedNumeral` | tutorials/surf-impl/src/2pc/CircuitSynthesis.cpp:757-769 | reversing the bytes of a least-significant-first numeral gives the big-endian byte string, for any width |
| `KeySchedule.SharedValue` | tutorials/surf-impl/src/2pc/DeriveCircuits.cpp:1202-1210 | the Diffie-Hellman value is the sum of the shares modulo p as whole bytes, most significant first; 521 bits fill up to 528 |
| `KeySchedule.SharedDheIsSum` | tutorials/surf-impl/src/2pc/DeriveCircuits.cpp:1202-1210 | the shared value, read as bytes most significant first, is (a+b) mod p, on whole bytes |
| `KeySchedule.XorSecrets` | tutorials/surf-impl/src/2pc/DeriveCircuits.cpp:1240-1249 | the low half is masked by Alice and the high half by Bob from the cursor on, and the cursor moves by 128 |
| `KeySchedule.DeriveHandshakeSecret` | tutorials/surf-impl/src/2pc/DeriveCircuits.cpp:1220-1238 | the handshake secret of section 7.1 of RFC 8446 from the joined PSK and the shared value |
| `KeySchedule.DeriveSecrets` | tutorials/surf-impl/src/2pc/DeriveCircuits.cpp:1253-1277 | client and server handshake traffic secrets, the derived secret and the master secret of the schedule |
| `KeySchedule.DeriveKeys` | tutorials/surf-impl/src/2pc/DeriveCircuits.cpp:1288-1305 | finished key, AES key and IV of the unmasked server traffic secret |
| `KeySchedule.RevealAll` | tutorials/surf-impl/src/2pc/DeriveCircuits.cpp:1311-1350 | five secrets masked in place through one cursor: unmasking and joining the halves of block j gives secret j as it was |
| `KeySchedule.MaskKey` | tutorials/surf-impl/src/2pc/DeriveCircuits.cpp:1317-1321 | the AES key is masked by the last 128 of Alice's mask wires |
| `KeySchedule.CombinedCircuit` | tutorials/surf-impl/src/2pc/DeriveCircuits.cpp:1202-1354 | end to end: unmasked and joined, the outputs are HS, CHTS, SHTS, dHS and MS of the schedule, and finished key, AES key and IV come from the unmasked SHTS; fed the hash of nothing and of the hello messages, they are those of section 7.1 of RFC 8446 over the messages |
| `KeySchedule.SecretsByHash` | tutorials/surf-impl/src/2pc/DeriveCircuits.cpp:1253-1277 | each of the five secrets as keyed hashes over the written-out bytes of its label |
| `KeySchedule.HandshakeByHmac` | tutorials/surf-impl/src/2pc/DeriveCircuits.cpp:1220-1238 | the handshake secret as three nested HMACs: PSK under the zero key, the bytes of the derived label, the shared value |
| `KeySchedule.MasterByHmac` | tutorials/surf-impl/src/2pc/DeriveCircuits.cpp:1263-1277 | the master secret as two nested HMACs from the handshake secret |
| `KeySchedule.RevealedWires` | tutorials/surf-impl/src/2pc/DeriveCircuits.cpp:1311-1354 | wire i of block j of Alice's and Bob's outputs, with their masks off, are wires i and 128+i of secret j |
| `KeySchedule.RevealedKeys` | tutorials/surf-impl/src/2pc/DeriveCircuits.cpp:1288-1305 | finished key and IV over the written-out bytes of their labels |
| `KeySchedule.RevealedAesKey` | tutorials/surf-impl/src/2pc/DeriveCircuits.cpp:1317-1321 | each wire of the AES key, with the last 128 mask wires off, over the written-out bytes of its label |
| `KeySchedule.HandshakeWires` | tutorials/surf-impl/src/2pc/DeriveCircuits.cpp:1202-1354 | the same wires for the schedule over the hello messages |
| `LinearAlgebra.Associative` | tutorials/frodo-pir-fast/pir/src/offline.rs:26-30 | (s A) d = s (A d) for all vectors and matrices |
| `Matrices.TransposeTwice` | tutorials/frodo-pir-fast/matrix/src/matrix.rs:295-309 | transposing twice gives the matrix back |
| `Matrices.TransposeProduct` | tutorials/frodo-pir-fast/matrix/src/matrix.rs:295-408 | the transpose of a wrapping product is the product of the transposes in the other order |
| `Matrices.RowsOfFlatten` | tutorials/frodo-pir-fast/matrix/src/matrix.rs:38-49 | laying rows out flat and cutting them up again gives the rows, whatever follows them |
| `Matrices.Matrix.WithVector` | tutorials/frodo-pir-fast/matrix/src/matrix.rs:38-49 | keeps the whole vector it is given, even a longer one |
| `Matrices.Matrix.At` | tutorials/frodo-pir-fast/matrix/src/matrix.rs:212-216 | the flat index reads row i, column j |
| `Matrices.Matrix.Transpose` | tutorials/frodo-pir-fast/matrix/src/matrix.rs:295-309 | the flat transpose holds the transposed matrix |
| `Matrices.Matrix.MultNaive` | tutorials/frodo-pir-fast/matrix/src/matrix.rs:356-381 | the entry-by-entry product is the wrapping matrix product |
| `Matrices.Matrix.MultTranspose` | tutorials/frodo-pir-fast/matrix/src/matrix.rs:388-408 | the product through a transposed right operand is the same wrapping product |
| `Matrices.Matrix.MultByVector` | tutorials/frodo-pir-fast/matrix/src/matrix.rs:328-350 | a vector of the wrong length is refused; otherwise the wrapping matrix-vector product |
| `Matrices.Matrix.Add` | tutorials/frodo-pir-fast/matrix/src/matrix.rs:229-242 | wrapping sum in place; the shape and the entries past it stay |
| `Matrices.Matrix.PopRow` | tutorials/frodo-pir-fast/matrix/src/matrix.rs:156-178 | returns the last row and leaves exactly the rows before it; none when there is no row |
| `Matrices.Matrix.PushRow` | tutorials/frodo-pir-fast/matrix/src/matrix.rs:190-205 | appends a row of the right width after the vector, refuses any other |
| `Matrices.WrappingDot` | tutorials/frodo-pir-fast/matrix/src/matrix.rs:396-404 | accumulating with wrap-around at each step gives the exact dot product modulo 2^32 |
| `Matrices.VecMult` | tutorials/frodo-pir-fast/matrix/src/utils.rs:54-68 | the checked dot product: an error exactly when the lengths differ, otherwise the exact dot product modulo 2^32 |
| `Matrices.TransposeMatrix` | tutorials/frodo-pir-fast/matrix/src/utils.rs:10-26 | row i of the transpose is entry i of every row, entry by entry |
| `Rounding.FactorTiles` | tutorials/frodo-pir-fast/pir/src/utils.rs:7-20 | for 1 to 31 bits the rounding factor is 2^(32-bits), tiles the modulus exactly and is twice the floor |
| `Rounding.DecodeExact` | tutorials/frodo-pir-fast/pir/src/online.rs:54-71 | decoding an entry returns x if and only if the entry is x factors plus noise in (-D/2, D/2] modulo 2^32, wrap-around included |
| `Pir.HintConsistent` | tutorials/frodo-pir-fast/pir/src/offline.rs:26-30 | multiplying a secret by the published hint is multiplying it by A and then by the database, modulo 2^32 |
| `Pir.AnswerIsScaledEntry` | tutorials/frodo-pir-fast/pir/src/online.rs:16-87 | answer less the client's own row is the noise plus the factor times the wanted entry, modulo 2^32 |
| `Pir.QueryDecodes` | tutorials/frodo-pir-fast/pir/src/online.rs:16-87 | a created query decodes to the wanted row if and only if the noise of every column is in the window, for every database, matrix, secret row and error row |
| `Pir.NoiseBoundExact` | tutorials/frodo-pir-fast/pir/src/online.rs:54-71 | no ternary errors on m plaintexts leave the window if and only if m(2^bits-1) < 2^(31-bits) |
| `Pir.RunConsumes` | tutorials/frodo-pir-fast/pir/src/online.rs:16-52 | over every run both sides stay at equal height and lose exactly one row a call, errors included, until none is left |
| `Pir.RunResults` | tutorials/frodo-pir-fast/pir/src/online.rs:16-52 | over every run, call k is served from row q-1-k and from no other; from call q on there is only the reuse error |
| `Pir.OutcomeIs` | tutorials/frodo-pir-fast/pir/src/online.rs:24-51 | a query is created if and only if the index exists and the sum does not overflow; it is the row with the factor added there and nowhere else |
| `Pir.RunDecodes` | tutorials/frodo-pir-fast/pir/src/online.rs:16-87 | along every run each created query decodes to its row if and only if its own error row's noise is in the window |
| `Pir.RunAlwaysDecodes` | tutorials/frodo-pir-fast/pir/src/online.rs:16-87 | within the noise bound every created query of every run decodes, whatever the ternary errors |
| `Pir.DecodesWrongly` | tutorials/frodo-pir-fast/pir/src/online.rs:16-87 | whenever the bound fails, a database, a matrix, a ternary secret and a ternary error row whose query is created and decodes to the wrong row |
| `Pir.ProtocolDecodesExactly` | tutorials/frodo-pir-fast/pir/src/online.rs:16-87 | every call of every run decodes, for all databases of m records and all ternary clients, if and only if m(2^bits-1) < 2^(31-bits) |
| `Pir.TwelveBitsPastTheBound` | tutorials/frodo-pir-fast/pir/src/online.rs:96-101 | 4096 records with 12-bit plaintexts are past that bound |
| `PirProtocol.BaseParams.constructor` | tutorials/frodo-pir-fast/pir/src/offline.rs:22-44 | publishes H = A DB and keeps the transposed database |
| `PirProtocol.BaseParams.CreateResponse` | tutorials/frodo-pir-fast/pir/src/online.rs:82-87 | the answer is the transposed database times the query |
| `PirProtocol.ClientParams.New` | tutorials/frodo-pir-fast/pir/src/offline.rs:56-101 | refuses 2^52 queries or more; otherwise B = S A + E and C = S H for the rows the matrices actually read, the zero rows in front of the sampled ones |
| `PirProtocol.CreateQuery` | tutorials/frodo-pir-fast/pir/src/online.rs:16-52 | the object's new state and result are exactly one step of the run relation, for every state and index |
| `PirProtocol.OverflowingAdd` | tutorials/frodo-pir-fast/pir/src/online.rs:26-34 | the wrapped sum, and a flag that is set exactly when it wrapped |
| `PirProtocol.NewIsPrepared` | tutorials/frodo-pir-fast/pir/src/offline.rs:84-90 | the rows of B and C are paired: row k of each belongs to secret k and error k |
| `PirProtocol.FreshRunDecodes` | tutorials/frodo-pir-fast/pir/src/offline.rs:72-90 | for the rows the code prepares, call k yields a query if and only if a row is left and the index exists, and it decodes to the wanted row, for a database of any size |
| `Packing.PackOctets` | tutorials/frodo-pir-fast/matrix/src/utils.rs:84-106 | packing the bits of a byte string gives the byte string |
| `Packing.CuttableIff` | tutorials/frodo-pir-fast/matrix/src/matrix.rs:103-125 | a record can be cut without slicing past its end if and only if it has (w-1) times bits bits |
| `Packing.ChunksBelow` | tutorials/frodo-pir-fast/matrix/src/matrix.rs:103-125 | every entry is below 2^bits |
| `Packing.OctetsAt` | tutorials/frodo-pir-fast/matrix/src/utils.rs:96-106 | bit 8i+j of a record is bit j of byte i |
| `Packing.ChunksAt` | tutorials/frodo-pir-fast/matrix/src/matrix.rs:103-125 | bit k of entry j is bit j times bits plus k of the record, 0 past its end |
| `Packing.RowBitsOfChunks` | tutorials/frodo-pir-fast/pir/src/utils.rs:81-94 | reading a row back gives the record's first bits, as many of the last group as the remainder asks for |
| `Packing.RecordRoundTrip` | tutorials/frodo-pir-fast/pir/src/utils.rs:81-94 | a record comes back if and only if the bits not read back lie inside its last byte and are zeros, for every record, element size and plaintext width |
| `Packing.WholeRecordRoundTrip` | tutorials/frodo-pir-fast/pir/src/utils.rs:81-94 | whenever the width does not divide the record's bits, the record comes back |
| `Packing.DividedRecordRoundTrip` | tutorials/frodo-pir-fast/pir/src/utils.rs:81-94 | when the width divides the record's bits, the record comes back if and only if the width is below 8 and its last group is zeros; with a width of 8 or more it never does |
| `Packing.LostRecord` | tutorials/frodo-pir-fast/pir/src/utils.rs:81-94 | the byte 1 as one plaintext of eight bits: nothing is read back |
| `Records.U8ToBitsLe` | tutorials/frodo-pir-fast/matrix/src/utils.rs:76-82 | the eight bits of a byte, least significant first |
| `Records.BytesToBitsLe` | tutorials/frodo-pir-fast/matrix/src/utils.rs:96-106 | the bits of every byte in order |
| `Records.BitsToBytesLe` | tutorials/frodo-pir-fast/matrix/src/utils.rs:84-94 | bits are packed eight to a byte, least significant first, the last byte short; every entry is a byte |
| `Records.BitsToU32Le` | tutorials/frodo-pir-fast/matrix/src/utils.rs:122-136 | the number on at most 32 bits, an error on more |
| `Records.U32ToBitsLe` | tutorials/frodo-pir-fast/pir/src/utils.rs:72-79 | the low bits of a word |
| `Records.BytesFromU32Slice` | tutorials/frodo-pir-fast/pir/src/utils.rs:81-94 | the bytes of a row: full width for all entries but the last, the remainder for the last |
| `Records.RecordWords` | tutorials/frodo-pir-fast/matrix/src/matrix.rs:110-122 | the words of one record, or an error exactly when some group is wider than 32 bits, even one in front of missing groups |
| `Records.FitsIff` | tutorials/frodo-pir-fast/matrix/src/matrix.rs:110-122 | a record fits if and only if it can be cut and its first group is at most 32 bits |
| `Records.NewFromVals` | tutorials/frodo-pir-fast/matrix/src/matrix.rs:93-126 | row i of the database is record i cut into groups, or an error exactly when some group does not fit a word |
| `Retrieval.BuildDatabase` | tutorials/frodo-pir-fast/matrix/src/matrix.rs:93-126 | with plaintexts of at most 31 bits building always succeeds and the matrix holds the records |
| `Retrieval.RunRetrieves` | tutorials/frodo-pir-fast/pir/src/online.rs:16-87 | along every run, records in to records out: the wanted record comes back if and only if its packing can be undone, within the noise bound, whatever the ternary errors |
| `Retrieval.FreshRunRetrieves` | tutorials/frodo-pir-fast/pir/src/offline.rs:56-101 | the same for the rows the code prepares, for any number of records |
| `Retrieval.RetrieveAll` | tutorials/frodo-pir-fast/pir/src/online.rs:16-87 | the objects put together, over any sequence of indices: call k brings back the record as far as it is read back, the overflow error for an index that does not exist, and the reuse error once the rows are spent |
| `Retrieval.FoundIsTheRecord` | tutorials/frodo-pir-fast/pir/src/utils.rs:81-94 | what a call brings back is the record if and only if the bits not read back lie inside its last byte and are zeros |

## Left out

- The contents of the AES, SHA-256 compression and modular-addition circuits: they are netlists. AES and compression are parameters; modular addition is its documented contract, a + b mod p on operands below p.
- Hiding, binding, privacy and collision bounds: only functional correctness is stated.
- Garbling, oblivious transfer and the multiplicative-to-additive conversion: the model is of the function a circuit computes, with both parties' inputs as plain bundles.
- The multiplication `F2128_MTA::mul` that GHash.hpp calls: it is its documented contract, the field product.
- Random generators, seeds and the ternary sampler: the public matrix and the sampled rows are arguments; sampled rows are any rows.
- base64: records are byte strings, and decoding errors are not modelled.
- Parallel iteration in the matrix products: each iteration writes its own cells, so the loops are sequential here.
- Gate counts and the order of gates within one wire's expression.
- ShuffleEpi32: modelled on values, as are SlliSi128, SrliSi128 and ShiftEpi32; the copying between buffers, and whether input and output may alias, is not captured.
- Panics are preconditions: a zero-sized matrix, an index out of bounds, slicing a record past its end, and plaintext widths of 0 or above 31 bits in the rounding constants.
- `Matrix::pop`, `Matrix::sub`, `Matrix::equal`, random and seeded constructors: no query or answer goes through them.
- `DeriveAESSplit`, `DeriveCTXCommitments`, `DerivePSK` and `convert_bssl_array_to_emp_span`: the code does not settle what they are meant to compute.
- `DeriveHS`, the single-secret generators and the combined traffic, resumption and PSK circuits: they repeat the derivations of the combined handshake circuit.
- `Inc128`, benchmarks, sockets, handoff files, HTML parsing and scripts: plumbing.
- CombinedCircuit: that the constant the circuit feeds is the SHA-256 hash of the empty string is a premise of its last clause, because the compression function is a parameter.
- HkdfExpandInternal: the one-byte round counter is written as the low eight bits of the round number, so beyond 255 rounds the result is still stated but is no longer what section 2.3 of RFC 5869 allows.
- HmacInternal: keys longer than one chunk, which the source does not accept, are not modelled.
