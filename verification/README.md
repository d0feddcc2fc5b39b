# A verified model of the topology generators and the Bitcoin codec library

The repository studies transaction relay on small Bitcoin networks.  Its own code generates the networks
(`utils/create_network.py`, `utils/create_eclipse_network.py`); the scenarios stand on a Bitcoin library
(`scenarios/test_framework`) for curve arithmetic, signatures, checksummed encodings, wire formats and scripts.
This project models that code in Dafny and proves what it is for.  `dafny verify dfyconfig.toml` checks all of it.

| part | modules |
|---|---|
| arithmetic shared by the rest | `NumberTheory`, `Bytes`, `Text` |
| secp256k1: lazy fractions, curve, scalar multiplication | `Field`, `Curve`, `Group`, `GroupElement`, `PointCodec` |
| ECDSA, Schnorr, key tweaking, DER | `Keys`, `Der` |
| checksummed text encodings | `Checksum`, `Galois`, `Bech32`, `Segwit`, `Descriptors`, `Base58`, `TestStrings` |
| wire formats and scripts | `Messages`, `Transaction`, `Psbt`, `P2P`, `Script`, `ScriptNum`, `Taproot`, `TaprootBinding`, `Wallet`, `Layouts` |
| the set hash | `MuHash` |
| network topologies | `Graphs`, `Topology`, `Feasibility`, `Eclipse` |

Objects that the source updates in place are classes whose methods are proved against functions on values
(`FE`, `GE`, `FastGEMul`, `ECKey`, `ECPubKey`, `Stream`, `CTransaction`, `PSBTMap`, `PSBT`, `P2PConnection`,
`MuHash3072`, `DiGraph`, `Rng`); loops of the source are loops here.  The main results are lemmas about those functions.
An exception of the source is a `None`, a `Raised` or a `false` result.

Assumptions.  `Group.GroupFacts` states what is taken for granted about secp256k1 and appears as a precondition
wherever it is needed: the field size and the group order are prime, point addition is associative on the curve, and
the group order takes every point to infinity.  Nothing else is assumed: that sums stay on the curve, that addition
commutes, that no point has y = 0 and that every scalar in range gives a finite point are proved.  Hash functions are
parameters: any function with results of the right length; so are, for a received message, whether its payload
deserializes and whether the callback returns.  Random choices are parameters too: a nonce is any integer,
and a generator's `sample` is any function of its earlier calls that returns distinct elements of the population.

Where the code does not do what its documentation says, the code is followed, and the exact condition is proved:

* `sign_ecdsa` may emit an s equal to half the group order, which `verify_ecdsa` refuses (`Keys.EcdsaComplete`,
  `Keys.HalfOrderRefused`).
* A transaction with outputs but neither inputs nor witness is not read back (`Messages.TxRoundTrip`), serializing may
  change a transaction so that a second serialization differs (`Transaction.SerializeTwice`,
  `Transaction.SerializeTwiceWitness`).
* A string cut off by the end of a stream is returned without an error when its announced length is below 2^63, the bound
  of what `read` accepts; from there on `read` raises (`Messages.ShortString`, `Messages.LengthWitnesses`).
* A PSBT map with a bytes key shorter than two bytes is not read back (`Psbt.MapRoundTrip`, `Psbt.ShortKeyWitness`).
* `byte_to_base58` fails when version, payload and checksum are all zero bytes (`Base58.AddressRoundTrip`).
* `base58_to_byte` accepts a string of four bytes that are the checksum of nothing, "3QJmnh" for the double SHA-256, and
  returns an empty payload whose encoding is another string; an accepted string is the encoding of what is returned
  exactly when it stands for more than four bytes and is not made of '1' only (`Base58.AddressCanonical`,
  `Base58.BareChecksumAccepted`, `Base58.BareChecksumOfSha256`).
* A message of 2^31 bytes or more is framed but not delivered, apart from one coincidence (`P2P.FrameDeliversIff`), and a
  negative length can leave the buffer unchanged, so that the receive loop never ends (`P2P.DeliveryShrinks`,
  `P2P.ForeverWitness`).
* A `CScriptNum` of 76 bytes or more is not read back as a push (`ScriptNum.NumReadBack`, `ScriptNum.NumWitness`).
* A transaction with any flag but zero is read like one with the flag 1 (`Messages.FlagsAlike`).
* `_bulk_tx` misses its bounds for 0 to 75 and for more than 65531 padding bytes, a transaction already too heavy aside,
  and for other numbers when serializing drops witnesses (`Wallet.Excess`, `Wallet.BulkTx`).
* A list without items inside a Taproot tree has an empty hash, which no branch can hold, so that the leaf beside it has
  no inclusion proof (`Taproot.EmptyListWitness`).
* `taproot_construct` returns leaves that BIP 341 does not let anyone spend: all of them when the internal key was treated
  as infinity, because validation always lifts the key, and those more than 128 levels deep, because a control block holds
  no longer branch.  A leaf spends exactly otherwise (`Taproot.ConstructedSpends`, `Taproot.InfinityUnspent`,
  `Taproot.TooDeep`).  The control block of a leaf of version 0x50 starts like an annex when the output point has an even
  y, and is then taken for it unless an annex follows.

## Model

| member | source | states |
|---|---|---|
| NumberTheory.UnitInverse | scenarios/test_framework/secp256k1.py:89-94 | `pow(d, -1, m)` of a number with an inverse is that inverse, by the extended Euclidean algorithm |
| NumberTheory.PrimeInverse | scenarios/test_framework/secp256k1.py:89-94 | modulo a prime every number that it does not divide has an inverse |
| NumberTheory.FermatNat | scenarios/test_framework/secp256k1.py:96-113 | a^p = a modulo a prime p, proved through the binomial theorem; the exponent of the square root rests on it |
| Field.SizeIs | scenarios/test_framework/secp256k1.py:26-26 | the field size in hexadecimal, and that it is 3 modulo 4 |
| Group.OrderIs | scenarios/test_framework/secp256k1.py:163-164 | the group order in hexadecimal, and that it is odd |
| Field.RatioDenotes | scenarios/test_framework/secp256k1.py:19-45 | the value of a fraction is the residue which times the denominator gives the numerator |
| Field.FE.constructor | scenarios/test_framework/secp256k1.py:28-45 | building a fraction from ints or elements gives their quotient, and the denominator is never zero |
| Field.FE.Add | scenarios/test_framework/secp256k1.py:47-51 | the value of the sum is the sum of the values modulo p, whatever the representations |
| Field.FE.Sub | scenarios/test_framework/secp256k1.py:57-61 | the value of the difference is the difference of the values |
| Field.FE.Mul | scenarios/test_framework/secp256k1.py:67-71 | the value of the product is the product of the values |
| Field.FE.TrueDiv | scenarios/test_framework/secp256k1.py:77-79 | the value of the quotient is the quotient of the values |
| Field.FE.Pow | scenarios/test_framework/secp256k1.py:81-83 | the value of a power is the power of the value; a negative power times the positive one is 1, and exactly a negative power of zero raises |
| Field.FE.Neg | scenarios/test_framework/secp256k1.py:85-87 | the value of the negation is the negated value |
| Field.FE.ToInt | scenarios/test_framework/secp256k1.py:89-94 | the conversion overwrites numerator and denominator, returns the canonical value and never changes what the object stands for |
| Field.FE.Sqrt | scenarios/test_framework/secp256k1.py:96-113 | a root is returned exactly for squares, and its square is the operand |
| Field.SqrtComplete | scenarios/test_framework/secp256k1.py:96-113 | raising to (p+1)/4 finds a root exactly when one exists |
| Field.FE.IsEven | scenarios/test_framework/secp256k1.py:120-122 | parity of the canonical value; the value is unchanged |
| Field.FE.Eq | scenarios/test_framework/secp256k1.py:124-128 | cross multiplication decides equality of the values |
| Field.FE.ToBytes | scenarios/test_framework/secp256k1.py:130-132 | the 32 bytes are the big-endian canonical value |
| Field.FE.FromBytes | scenarios/test_framework/secp256k1.py:134-140 | an element for exactly the byte strings below p, with that value |
| Curve.AddOnCurve | scenarios/test_framework/secp256k1.py:184-205 | the sum of two curve points by the infinity, opposite, tangent or chord branch satisfies y^2 = x^3 + 7 |
| Curve.AddCommutes | scenarios/test_framework/secp256k1.py:184-205 | addition commutes on the curve |
| Curve.SameAbscissa | scenarios/test_framework/secp256k1.py:193-197 | curve points with the same x and different y are opposite, which is what the code asserts before it returns infinity |
| Curve.SlopeMeaning | scenarios/test_framework/secp256k1.py:190-202 | the slope is that of the chord or of the tangent, and its denominator is not zero |
| Curve.ThirdOnLine | scenarios/test_framework/secp256k1.py:199-204 | reflected, the sum of two points lies on the line through the first with the slope of tangent or chord, and the three abscissas add up to the square of the slope |
| Curve.NegOnCurve | scenarios/test_framework/secp256k1.py:233-237 | the negated point is on the curve |
| Group.NoOrderTwo | scenarios/test_framework/secp256k1.py:184-205 | no curve point has y = 0, so the tangent is always defined |
| Group.ScaleAdd | scenarios/test_framework/secp256k1.py:227-231 | (a+b)P = aP + bP for all integers, negative ones included |
| Group.ScaleScale | scenarios/test_framework/secp256k1.py:227-231 | a(bP) = (ab)P for all integers |
| Group.ScaleMod | scenarios/test_framework/secp256k1.py:208-225 | multiples depend on the scalar modulo the group order only |
| Group.ScaleFinite | scenarios/test_framework/key.py:190-201 | a multiple of the generator is infinity only for multiples of the group order |
| Group.LinCombIsWeightedSum | scenarios/test_framework/secp256k1.py:208-225 | the simultaneous double-and-add recurrence down to bit 0 is the sum of the individual multiples |
| GroupElement.GE.Add | scenarios/test_framework/secp256k1.py:184-205 | the method on fractions computes point addition in every branch |
| GroupElement.GE.Neg | scenarios/test_framework/secp256k1.py:233-237 | the method negates the point |
| GroupElement.GE.Mul | scenarios/test_framework/secp256k1.py:208-225 | for any list of (scalar, point) pairs the loop returns the sum of the individual multiples, for all integers |
| GroupElement.GE.LiftX | scenarios/test_framework/secp256k1.py:254-262 | lift_x on objects agrees with lift_x on values |
| GroupElement.FastGEMul.constructor | scenarios/test_framework/secp256k1.py:331-335 | entry i of the table is 2^i times the point |
| GroupElement.FastGEMul.Mul | scenarios/test_framework/secp256k1.py:337-343 | multiplication through the table equals the multiple for every integer, with no index past the table |
| PointCodec.LiftXFinds | scenarios/test_framework/secp256k1.py:254-262 | lift_x returns the even-y point with that x exactly when the curve has a point with that x |
| PointCodec.EvenPointUnique | scenarios/test_framework/secp256k1.py:254-262 | at most one curve point has a given x and an even y |
| PointCodec.GeneratorIsLiftX | scenarios/test_framework/secp256k1.py:316-316 | the generator is what lift_x finds for its x coordinate |
| PointCodec.XOnlyRoundTrip | scenarios/test_framework/secp256k1.py:249-296 | decoding the x-only bytes of a point gives the point or its negation, whichever has an even y |
| PointCodec.PointRoundTrip | scenarios/test_framework/secp256k1.py:239-287 | compressed and uncompressed serializations decode to the same point |
| PointCodec.DecodedOnCurve | scenarios/test_framework/secp256k1.py:264-287 | every decoded point is a finite point of the curve |
| Keys.TweaksAgree | scenarios/test_framework/key.py:190-237 | tweaking a private key and taking its x-only key equals tweaking the x-only key, negation flag included; both sides refuse together |
| Keys.SchnorrComplete | scenarios/test_framework/key.py:239-289 | every signature made without flips verifies under the x-only key of its secret (BIP 340, "Default Signing" and "Verification") |
| Keys.SchnorrFlips | scenarios/test_framework/key.py:239-290 | with any combination of the two flips, a returned signature verifies exactly when k + e*d vanishes modulo the order, where k counts only if the nonce was flipped and e*d only if the key was |
| Keys.FlippedNonceRefused | scenarios/test_framework/key.py:239-290 | a signature made with flip_r alone never verifies |
| Keys.EquationIff | scenarios/test_framework/key.py:257-265 | for an even nonce point the verification equation has exactly one s, (k + e*d) mod n |
| Keys.SchnorrSound | scenarios/test_framework/key.py:239-266 | a signature is accepted exactly when its first half is the x-only form of some nonce and its second half is the even secret of that nonce plus the hash of first half, key and message times the even secret of the key, modulo the order (BIP 340, "Verification"); the hash input is written out |
| Keys.SchnorrVerdict | scenarios/test_framework/key.py:239-266 | for a given nonce, exactly one second half below the order is accepted, with the hash input written out |
| Keys.SchnorrBinds | scenarios/test_framework/key.py:239-266 | a signature accepted for one message is accepted for another exactly when the two hashes agree modulo the order |
| Keys.SchnorrSigned | scenarios/test_framework/key.py:268-290 | what signing returns, for all flips: nonce and second half with all three hash inputs written out (BIP 340, "Default Signing") |
| Keys.MaskedIs | scenarios/test_framework/key.py:282-282 | the mask is the exclusive or of secret and hash as numbers |
| Keys.EcdsaComplete | scenarios/test_framework/key.py:58-188 | for every key, message and nonce the verifier parses the emitted bytes and accepts exactly when r and s are nonzero and, with low_s, s is below half the order |
| Keys.EcdsaSound | scenarios/test_framework/key.py:98-109 | two numbers in range are accepted exactly when low-s allows s and some nonce k has a point with abscissa r modulo the order and s*k = z + secret*r: nothing else verifies |
| Keys.EcdsaRange | scenarios/test_framework/key.py:58-109 | whatever is accepted, under whatever key, is the encoding of two numbers from 1 below the order, with s below half of it under low-s |
| Keys.EcdsaSigned | scenarios/test_framework/key.py:166-188 | signing raises exactly for a zero nonce; otherwise it emits the two numbers that solve the equation for its nonce, s negated exactly when it is high and low s is asked for |
| Keys.HalfOrderRefused | scenarios/test_framework/key.py:58-188 | for every key and nonce there is a message whose default signature has s equal to half the order, and it is refused |
| Keys.ECKey.Set | scenarios/test_framework/key.py:132-139 | the key becomes valid exactly for 1..n-1, and an invalid secret leaves the other fields alone |
| Keys.ECKey.GetPubkey | scenarios/test_framework/key.py:158-164 | the public key is the secret times the generator, with the same compression flag |
| Keys.ECPubKey.Set | scenarios/test_framework/key.py:38-42 | the field becomes the decoded point; an exception leaves both fields alone |
| Keys.ECPubKey.GetBytes | scenarios/test_framework/key.py:51-56 | the bytes decode to the same point |
| Der.ParseIffEncoded | scenarios/test_framework/key.py:58-96 | the verifier's strict parser accepts exactly the byte strings that the signer's encoder writes, with the same two numbers |
| Der.MinimalIffWritten | scenarios/test_framework/key.py:74-92 | the tests on leading bytes accept exactly the shortest non-negative integers |
| Checksum.Code.Polymod | scenarios/test_framework/segwit_addr.py:19-28 | the loop over top bits and constants computes the register function, for any generator of five constants |
| Checksum.Code.ShiftLinear | scenarios/test_framework/segwit_addr.py:22-27 | one step of the register is linear over exclusive or |
| Checksum.Code.ShiftInjective | scenarios/test_framework/segwit_addr.py:22-27 | one step loses no information |
| Checksum.Code.SingleError | scenarios/test_framework/segwit_addr.py:19-28 | replacing one symbol at any position of a string of any length changes the register |
| Checksum.Code.BurstError | scenarios/test_framework/segwit_addr.py:19-28 | any change confined to as many adjacent symbols as the checksum has, anywhere in a string of any length, changes the register |
| Checksum.Code.CreateIff | scenarios/test_framework/segwit_addr.py:46-51 | the created symbols, and no others, bring the register to the target |
| Galois.StepIsAdvance | scenarios/test_framework/segwit_addr.py:19-28 | one step multiplies the register, as a polynomial over GF(32), by x modulo the generator polynomial and adds the symbol |
| TestStrings.Bech32Generates | scenarios/test_framework/segwit_addr.py:21-21 | the five constants are the multiples of the generator polynomial of BIP 173 by the basis of GF(32) |
| TestStrings.DescriptorGenerates | scenarios/test_framework/descriptors.py:11-11 | so are those of descriptors, for a polynomial of degree 8 |
| TestStrings.WholeAlphabet | scenarios/test_framework/segwit_addr.py:13-76 | the 32 symbols in order are written and read as abcdef1qpzry9x8gf2tvdw0s3jn54khce6mua7lmqqqxw (BIP 173, "Test vectors") |
| TestStrings.EmptyData | scenarios/test_framework/segwit_addr.py:13-76 | no data is written and read as a1lqfn3a in Bech32m (BIP 350, "Test vectors") |
| Bech32.ChecksumIff | scenarios/test_framework/segwit_addr.py:36-51 | created symbols verify as the encoding they were made for, and no other six symbols do (BIP 173, "Checksum"; BIP 350) |
| Bech32.OneSymbolDetected | scenarios/test_framework/segwit_addr.py:36-44 | a string with one wrong symbol never verifies as the same encoding |
| Bech32.BurstDetected | scenarios/test_framework/segwit_addr.py:36-44 | a string with up to six adjacent wrong symbols never verifies as the same encoding |
| Bech32.HrpDetected | scenarios/test_framework/segwit_addr.py:31-44 | a wrong human-readable part of the same length, wrong only within j - i adjacent characters with length + 1 + j - i at most 6, never verifies with the same data as the same encoding |
| Bech32.ShortHrpDetected | scenarios/test_framework/segwit_addr.py:31-44 | two different parts of one or two characters, "bc" and "tb" say, never verify with one data part as the same encoding |
| Bech32.HrpCharacterDetected | scenarios/test_framework/segwit_addr.py:31-44 | one wrong character in a part of up to four characters is detected |
| Bech32.DecodeEncoded | scenarios/test_framework/segwit_addr.py:54-76 | an encoding decodes to its parts exactly when the human-readable part is nonempty, printable and lower case and the string has at most 90 characters |
| Bech32.DecodeCanonical | scenarios/test_framework/segwit_addr.py:60-76 | a string that decodes is, up to case, the encoding of its parts |
| Bech32.DecodeIff | scenarios/test_framework/segwit_addr.py:54-76 | what decodes is exactly the lower-case and the upper-case spelling of encodings with a good human-readable part within 90 characters |
| Segwit.ConvertBits | scenarios/test_framework/segwit_addr.py:79-99 | the masked accumulator loses no pending bit: the result is the bit string cut into groups, with the code's rules for padding and range |
| Segwit.RegroupRoundTrip | scenarios/test_framework/segwit_addr.py:79-99 | regrouping with padding is undone without it exactly when fewer zeros were added than a source group holds, for all widths and lengths |
| Segwit.RegroupBack | scenarios/test_framework/segwit_addr.py:79-99 | data that regroups without padding regroups back to itself |
| Segwit.AddressRoundTrip | scenarios/test_framework/segwit_addr.py:102-124 | exactly a version above 31 or a program that is not bytes raises; an address is returned exactly for a good human-readable part and a valid program within 90 characters, and decodes to version and program |
| Segwit.AddressCanonical | scenarios/test_framework/segwit_addr.py:102-124 | a string that decodes is, up to case, the one address of its program |
| Segwit.AddressIff | scenarios/test_framework/segwit_addr.py:102-124 | what decodes for a prefix is exactly the lower-case and the upper-case spelling of the address of the program |
| Segwit.Decoded | scenarios/test_framework/segwit_addr.py:102-116 | an address holds its version as first symbol and then the regrouped program, and is Bech32 for version 0 and Bech32m for the others |
| Descriptors.ExpandLoop | scenarios/test_framework/descriptors.py:23-40 | the loop over groups of three computes the expansion |
| Descriptors.CheckIffCreated | scenarios/test_framework/descriptors.py:42-57 | of all extensions by '#' and eight checksum characters exactly the created one checks |
| Descriptors.CreatedChecks | scenarios/test_framework/descriptors.py:42-57 | descsum_check accepts descsum_create(s) for every s over the input characters |
| Descriptors.CheckIff | scenarios/test_framework/descriptors.py:42-57 | what checks is exactly what descsum_create makes of some string, and without the requirement also any string without a separator |
| Descriptors.CasePairs | scenarios/test_framework/descriptors.py:9-9 | a letter and its other case stand at one place of two groups, so that a wrong case changes the group number only |
| Descriptors.ExpandInjective | scenarios/test_framework/descriptors.py:23-40 | strings of one length with the same expansion are equal |
| Descriptors.WindowDetected | scenarios/test_framework/descriptors.py:23-57 | a change within two groups of three characters leaves no valid checksum valid |
| Descriptors.FourCharactersDetected | scenarios/test_framework/descriptors.py:23-57 | two descriptors of one length that differ within four adjacent characters only never share a checksum |
| Base58.ByteToBase58 | scenarios/test_framework/address.py:64-75 | the two loops write the numeral of version, payload and checksum after one '1' per leading zero byte |
| Base58.Base58ToByte | scenarios/test_framework/address.py:78-105 | the loops read the numeral and the leading ones, then test and cut off the checksum |
| Base58.CheckedIff | scenarios/test_framework/address.py:96-105 | a string of more than four bytes is accepted exactly when it is version, payload and the first four bytes of the hash of these |
| Base58.AlphabetIs | scenarios/test_framework/address.py:47-47 | the alphabet is the digits and letters without 0, O, I and l, in the order of their codes |
| Base58.BytesRoundTrip | scenarios/test_framework/address.py:64-105 | decoding undoes encoding for any number of leading zero bytes |
| Base58.StringRoundTrip | scenarios/test_framework/address.py:64-105 | encoding undoes decoding for every string over the alphabet with a character other than '1' |
| Base58.AddressRoundTrip | scenarios/test_framework/address.py:64-105 | payload and version come back; encoding fails exactly when all bytes are zero |
| Base58.AddressCanonical | scenarios/test_framework/address.py:78-105 | an accepted string is the encoding of its payload and version exactly when it stands for more than four bytes and is not made of '1' only |
| Base58.BareChecksumAccepted | scenarios/test_framework/address.py:64-105 | for any hash, the four checksum bytes of nothing, encoded, are accepted, and what is returned encodes differently |
| Base58.BareChecksumOfSha256 | scenarios/test_framework/address.py:64-105 | with the double SHA-256 that string is "3QJmnh", accepted as version 0x5d with an empty payload |
| Messages.CompactSizeTrip | scenarios/test_framework/messages.py:90-111 | a compact size is read back, whatever follows |
| Messages.CompactSizeShortest | scenarios/test_framework/messages.py:90-111 | no encoding that is read as a number is shorter than the one written |
| Messages.StringTrip | scenarios/test_framework/messages.py:114-120 | a string is read back, whatever follows |
| Messages.ShortString | scenarios/test_framework/messages.py:114-116 | the announced length is met exactly when the stream holds that many bytes; a shorter stream gives its rest without an error below 2^63 and raises from there on |
| Messages.LengthWitnesses | scenarios/test_framework/messages.py:114-116 | one byte 1 is read as an empty string, nine bytes 0xff raise |
| Messages.VectorTrip | scenarios/test_framework/messages.py:143-166 | a vector is read back whenever its elements are |
| Messages.TxInTrip | scenarios/test_framework/messages.py:422-458 | an input with its outpoint is read back |
| Messages.TxOutTrip | scenarios/test_framework/messages.py:473-481 | an output is read back, negative values included |
| Messages.StackTrip | scenarios/test_framework/messages.py:185-198 | a witness stack is read back |
| Messages.EmptyTrip | scenarios/test_framework/messages.py:577-628 | without inputs and outputs the output count is read as a zero flag and the outputs of the object stay as they were |
| Messages.NoInputsFail | scenarios/test_framework/messages.py:577-628 | without inputs and witness but with outputs the transaction never comes back |
| Messages.FlagsAlike | scenarios/test_framework/messages.py:577-597 | every flag but zero is read like the flag 1 |
| Messages.TxRoundTrip | scenarios/test_framework/messages.py:577-628 | deserializing a serialized transaction followed by anything gives it back and leaves what followed, null witnesses emptied and short ones padded (BIP 144, "Serialization"), exactly outside that case |
| Transaction.Stream.Read | scenarios/test_framework/messages.py:114-116 | for the lengths that read accepts, what was unread is what is returned followed by what stays unread; less than asked for comes back only at the end, without an error |
| Transaction.Stream.TakeVector | scenarios/test_framework/messages.py:143-153 | the loop over the announced number of elements computes the vector reader |
| Transaction.WriteVector | scenarios/test_framework/messages.py:159-166 | the loop computes the vector writer |
| Transaction.CTransaction.Deserialize | scenarios/test_framework/messages.py:577-597 | the fields are filled from the stream as the reader on values says, and the stream is left where it says |
| Transaction.CTransaction.SerializeWithoutWitness | scenarios/test_framework/messages.py:599-606 | the bytes without marker, flag and witnesses |
| Transaction.CTransaction.SerializeWithWitness | scenarios/test_framework/messages.py:608-628 | the bytes for the old fields, and the new fields: only the witness vector changes, cut or filled up to the inputs |
| Transaction.CTransaction.GetWeight | scenarios/test_framework/messages.py:664-667 | three times the stripped size plus the full size, with the same side effect |
| Transaction.SerializeTwice | scenarios/test_framework/messages.py:608-628 | a second serialization gives the same bytes exactly when the cut does not drop every non-empty witness |
| Transaction.SerializeTwiceWitness | scenarios/test_framework/messages.py:608-628 | with one input and its only non-empty witness in second place, two serializations differ |
| Transaction.DroppedBeyondInputs | scenarios/test_framework/messages.py:620-624 | cutting the witness vector leaves nothing exactly when every witness at the position of an input is empty |
| Transaction.Resend | scenarios/test_framework/messages.py:577-628 | through the objects: a new transaction reads what another wrote and leaves what followed |
| Psbt.PSBTMap.Deserialize | scenarios/test_framework/psbt.py:73-84 | the loop reads entries up to the empty key, raises on a repeated key and terminates; a failure leaves the map alone |
| Psbt.PSBTMap.Serialize | scenarios/test_framework/psbt.py:86-94 | the loop writes the entries in insertion order and the end marker |
| Psbt.MapRoundTrip | scenarios/test_framework/psbt.py:73-94 | a written map is read back exactly when no bytes key is shorter than two bytes |
| Psbt.ShortKeyWitness | scenarios/test_framework/psbt.py:73-94 | a bytes key of one byte is written and comes back as an int key |
| Psbt.PSBT.Deserialize | scenarios/test_framework/psbt.py:105-112 | the global map, the transaction and one map per input and output are set from the stream |
| Psbt.PSBT.Serialize | scenarios/test_framework/psbt.py:114-124 | the bytes, or a failed assertion |
| Psbt.PsbtRoundTrip | scenarios/test_framework/psbt.py:105-124 | a written PSBT is read back with its transaction exactly when its keys are canonical (BIP 174) |
| Psbt.DeserPsbtCanonical | scenarios/test_framework/psbt.py:105-112 | what is read has canonical keys only |
| Psbt.DeserPsbtHolds | scenarios/test_framework/psbt.py:105-112 | what is read starts with the magic bytes, holds its transaction in the global map and has one map for every input and output |
| Psbt.BlankRoundTrip | scenarios/test_framework/psbt.py:126-133 | blanking keeps the transaction and always gives a PSBT that is read back |
| P2P.P2PConnection.DataReceived | scenarios/test_framework/p2p.py:225-229 | the new buffer, the delivered messages and the exception, of a bad frame, a payload or the callback, are those of draining the old buffer with the data appended; no data changes nothing |
| P2P.P2PConnection.OnData | scenarios/test_framework/p2p.py:231-265 | the loop drains the buffer, up to the first exception of a bad frame, a payload or the callback |
| P2P.DeliveryShrinks | scenarios/test_framework/p2p.py:244-257 | a delivery shortens the buffer, except exactly for lengths that make the slice start at or before it, when it stays the same for good |
| P2P.ForeverWitness | scenarios/test_framework/p2p.py:231-265 | for every accepted type with an empty payload, the header with length -24 is delivered and leaves the buffer as it was |
| P2P.DeliversIff | scenarios/test_framework/p2p.py:231-265 | unless the announced length is negative, a message is delivered exactly from magic bytes, a type field that starts with its type, its length, the checksum of its payload and the payload |
| P2P.ErrorCases | scenarios/test_framework/p2p.py:231-268 | each other magic, wrong checksum, unknown type, payload that does not deserialize and callback that raises ends in its own error, the first two with the buffer as it was |
| P2P.StopsAtError | scenarios/test_framework/p2p.py:231-268 | after any number of good frames an error stops the loop: what came before is delivered and nothing after it |
| P2P.BuildMessage | scenarios/test_framework/p2p.py:296-308 | the frame, which a receiver drains to exactly this message and an empty buffer |
| P2P.DrainPrefix | scenarios/test_framework/p2p.py:231-265 | draining any prefix of a stream of frames delivers the messages complete in it and keeps the rest |
| P2P.Reassembly | scenarios/test_framework/p2p.py:225-308 | however the stream is cut, each message is delivered once, in order, as soon as it is complete and not before, and the buffer is what is not delivered yet |
| P2P.WholeStream | scenarios/test_framework/p2p.py:225-308 | the whole stream delivers all messages and leaves an empty buffer |
| P2P.FrameDeliversIff | scenarios/test_framework/p2p.py:231-308 | a frame of any size is delivered with the rest left over exactly below 2^31 bytes, or when the buffer holds exactly 2^32 bytes |
| Script.ReadOne | scenarios/test_framework/script.py:484-531 | one turn of the iteration reads the first instruction or raises |
| Script.RawIter | scenarios/test_framework/script.py:477-531 | the loop yields the instructions with their offsets up to an exception |
| Script.FirstRaw | scenarios/test_framework/script.py:484-531 | what is read is well formed and its bytes are the ones read |
| Script.RawFirst | scenarios/test_framework/script.py:484-531 | the bytes of an instruction are read back, in all four length classes |
| Script.PushWellFormed | scenarios/test_framework/script.py:54-66 | a data push is well formed, carries its data and is the shortest such push |
| Script.IterateBuilt | scenarios/test_framework/script.py:466-531 | a script built from instructions iterates as exactly these, at exact offsets |
| Script.Tiling | scenarios/test_framework/script.py:477-531 | the instructions yielded tile the script from its start, all of it when nothing raises |
| Script.FindAndDelete | scenarios/test_framework/script.py:614-629 | the loop over spans keeps the bytes of the instructions at whose start the pattern does not occur |
| Script.DeleteSelected | scenarios/test_framework/script.py:614-629 | a pattern that occurs at the start of exactly the instructions of some kind leaves a script that parses as the original without them, in order; it raises exactly on a script that does not parse |
| Script.RawSelects | scenarios/test_framework/script.py:614-629 | the bytes of a well-formed instruction occur at the start of exactly the instructions equal to it |
| Script.DeleteInstr | scenarios/test_framework/script.py:614-629 | deleting the bytes of an instruction, a pushed signature say, removes exactly the instructions equal to it |
| Script.DeleteOpcode | scenarios/test_framework/script.py:614-629 | deleting an opcode gives a script whose parse is the original without those instructions; it raises exactly on a script that does not parse |
| ScriptNum.Encode | scenarios/test_framework/script.py:392-406 | the loop computes the length byte and the sign-magnitude payload, or raises |
| ScriptNum.Decode | scenarios/test_framework/script.py:409-423 | the loop computes the number a payload denotes |
| ScriptNum.NumberRoundTrip | scenarios/test_framework/script.py:392-423 | decoding undoes encoding for every integer whose payload has at most 255 bytes; encoding raises for the others |
| ScriptNum.MinimalIffWritten | scenarios/test_framework/script.py:392-423 | the payloads written are exactly the minimal ones |
| ScriptNum.PayloadShortest | scenarios/test_framework/script.py:392-423 | no shorter payload denotes the same number |
| ScriptNum.Bn2vch | scenarios/test_framework/script.py:39-48 | the bit-length computation gives the payload of CScriptNum for every integer |
| ScriptNum.BuildIterates | scenarios/test_framework/script.py:438-475 | a script built from opcodes, script numbers, integers and data iterates as what each was meant to be |
| ScriptNum.NumReadBack | scenarios/test_framework/script.py:438-475 | a script number is read back as a push of its payload exactly below 76 bytes |
| ScriptNum.NumWitness | scenarios/test_framework/script.py:438-475 | a number with a payload of 76 bytes exists and is not read back |
| Layouts.BytePlaces | scenarios/test_framework/messages.py:90-111 | a byte of a little- or big-endian number has the weight of its place |
| Layouts.NegativePacked | scenarios/test_framework/messages.py:473-481 | negative numbers are packed in two's complement |
| Layouts.CompactSizes | scenarios/test_framework/messages.py:90-111 | the bytes of the smallest compact size of each class |
| Layouts.SampleLayout | scenarios/test_framework/messages.py:599-628 | the bytes of a transaction with a different value in every field, without and with its witness (BIP 144, "Serialization") |
| Layouts.EntryLayout | scenarios/test_framework/psbt.py:86-94 | the bytes of a map of one entry (BIP 174, "Specification") |
| Layouts.PsbtLayout | scenarios/test_framework/psbt.py:114-124 | magic bytes, global map with the transaction under key 0, input maps, output maps, in this order |
| Layouts.VerackFrame | scenarios/test_framework/p2p.py:296-308 | the 24 bytes of a verack on a regression test network |
| Layouts.PushLayout | scenarios/test_framework/script.py:54-66 | the bytes of a push in each of its four forms |
| Layouts.ScriptNumbers | scenarios/test_framework/script.py:392-406 | the bytes of script numbers around the sign bit |
| Layouts.PaddingReads | scenarios/test_framework/wallet.py:117-118 | the padding script reads as OP_RETURN and one push of its bytes |
| Layouts.SmallSignatures | scenarios/test_framework/key.py:182-188 | the DER bytes of two small signatures |
| Layouts.KnownKeys | scenarios/test_framework/secp256k1.py:239-252 | the bytes of the generator and its negation in both forms (SEC 1) |
| Taproot.InclusionProofs | scenarios/test_framework/script.py:847-884 | for every well-formed tree the helper returns, and each returned branch, folded 32 bytes at a time, gives the returned root (BIP 341, "Script validation rules"); a leaf without a version has 0xc0 |
| Taproot.EmptyListWitness | scenarios/test_framework/script.py:847-884 | in a tree of a leaf and a list without items the leaf is proved only if hashing its own hash gives it back |
| TaprootBinding.LessIff | scenarios/test_framework/script.py:880-882 | the order of siblings is that of the numbers their hashes stand for |
| TaprootBinding.SingleRoot | scenarios/test_framework/script.py:847-868 | the root of one leaf is the TapLeaf hash of version, length and script; c0 01 51 for a single OP_TRUE |
| TaprootBinding.PairRoot | scenarios/test_framework/script.py:847-884 | the root of two leaves is the TapBranch hash of their hashes, the smaller first |
| TaprootBinding.OnlyLeavesProve | scenarios/test_framework/script.py:847-884 | as long as the hash inputs at hand do not collide, a script with a branch gives the root of a tree only if it is one of its leaves with that leaf's branch, or lies behind a partner function |
| TaprootBinding.LeavesProve | scenarios/test_framework/script.py:847-884 | every leaf, unnamed ones included, gives the root with its branch |
| Taproot.ReturnsNamedLeaves | scenarios/test_framework/script.py:847-884 | whenever the helper returns, it returns exactly the named leaves, in order |
| Taproot.BranchLengths | scenarios/test_framework/script.py:847-884 | a returned branch holds 32 bytes for every level its leaf lies below the root |
| Taproot.Constructed | scenarios/test_framework/script.py:901-926 | a construction returns exactly when the internal point, or infinity where that is asked for, plus the tweak times the generator is a finite point; the scriptPubKey is OP_1 and a push of that point's x coordinate (BIP 341, "Constructing and spending Taproot outputs") |
| Taproot.ConstructedSpends | scenarios/test_framework/script.py:901-926 | in what a construction returned, every name maps to the last leaf of that name, with 32 bytes of branch for each level of its depth; a witness of its script and control block, with or without inputs before and an annex after, takes the script path of the output exactly when the internal key was not treated as infinity and the leaf lies at most 128 levels deep; without an annex a control block that starts with the annex tag does not (BIP 341, "Script validation rules") |
| TaprootBinding.OneScript | scenarios/test_framework/script.py:901-926 | without collisions one control block is accepted for one script only |
| TaprootBinding.OnlyLeavesSpend | scenarios/test_framework/script.py:901-926 | without collisions a constructed output is spent under its internal key and parity with leaves of its tree only, and with none when there are no scripts |
| Taproot.InfinityApart | scenarios/test_framework/script.py:918-923 | no internal key gives the output that treating it as infinity gives for the same tweak |
| Taproot.InfinityUnspent | scenarios/test_framework/script.py:918-923 | treating the key as infinity returns an output for every tweak from 1 below the group order, which the leaf of a one-leaf tree never spends |
| Taproot.DeepWitness | scenarios/test_framework/script.py:847-884 | for every n there is a well-formed tree whose one named leaf lies n levels deep |
| Taproot.TooDeep | scenarios/test_framework/script.py:847-926 | below 128 levels that leaf is returned and its control block refused |
| Taproot.MiniWalletSpends | scenarios/test_framework/wallet.py:181-184 | the witness of MiniWallet, the script of its one unnamed leaf and a control block with even parity, spends exactly when the output point has an even y |
| Wallet.BulkTx | scenarios/test_framework/wallet.py:112-122 | the assertions hold exactly when the weight, less what the first serialization hides, plus four for every byte the padding adds, is within [target, target+15]; with nothing hidden, exactly for 76 to 65531 padding bytes or for -4 to -1 of them |
| Wallet.PadScriptLength | scenarios/test_framework/wallet.py:117-118 | the length of the padding script in each class of push, and when it raises |
| Wallet.WeightOfPadding | scenarios/test_framework/wallet.py:112-122 | replacing the script of the last output changes the weight by four for every byte of script and length |
| Wallet.Excess | scenarios/test_framework/wallet.py:112-122 | where the final weight lies, for every target and weight |
| Wallet.DroppedWeight | scenarios/test_framework/messages.py:608-667 | the weight that serializing hides when the cut drops every non-empty witness: marker, flag and one byte for every input |
| Wallet.ShownWeight | scenarios/test_framework/messages.py:608-667 | a first serialization hides that weight or nothing, and further ones change nothing |
| MuHash.MuHash3072.InsertData | scenarios/test_framework/muhash.py:77-80 | the object stands for one more insertion |
| MuHash.MuHash3072.RemoveData | scenarios/test_framework/muhash.py:82-85 | the object stands for one more removal |
| MuHash.MuHash3072.Digest | scenarios/test_framework/muhash.py:87-91 | after any calls: an exception exactly when the number of some removed element has no inverse, otherwise the hash of the 384 bytes of the product of the inserted elements' numbers times the inverses of the removed ones' |
| MuHash.SameDigest | scenarios/test_framework/muhash.py:64-91 | two objects whose calls stand for one multiset have one digest |
| MuHash.DigestReturnsIff | scenarios/test_framework/muhash.py:87-91 | the digest raises exactly when the number of some removed element has no inverse |
| MuHash.ModulusIs | scenarios/test_framework/muhash.py:70-70 | the modulus lies 1103717 below 2^3072 |
| MuHash.ValueIs | scenarios/test_framework/muhash.py:72-91 | after any run the value hashed is the product of the inserted elements times the inverses of the removed ones |
| MuHash.AgreesWithMultiset | scenarios/test_framework/muhash.py:64-91 | runs that stand for the same multiset, removals counted against insertions, have the same value |
| MuHash.PairCancels | scenarios/test_framework/muhash.py:64-91 | an insertion and a removal of one element cancel wherever they stand |
| Graphs.CountByPair | utils/create_network.py:42-53 | a graph without mirrored edges has at most one edge for every unordered pair of nodes |
| Graphs.ConnectedIffNoCut | utils/create_network.py:121-123 | a graph is connected exactly when no proper part of the nodes is closed under its edges |
| Graphs.ConnectedIffWalks | utils/create_network.py:121-123 | the connectedness computed by growing a set is reachability along walks |
| Topology.Rng.Sample | utils/create_network.py:93-94 | a draw from distinct elements gives k distinct ones of them, and depends on the earlier draws and on this one only |
| Topology.TryBuildGraph | utils/create_network.py:66-96 | the nested loops compute the two passes, deadlocks included, and the order in which the edges were added |
| Topology.AttemptTraced | utils/create_network.py:66-96 | call by call: each node in turn, first pass then second, is offered exactly the candidates of the graph made of the answers so far; the attempt returns that graph after the last call and gives up exactly at a node with too few candidates |
| Topology.ListCandidates | utils/create_network.py:78-87 | the candidates are exactly the reachable peers not connected yet, other than the node, with an inbound slot left |
| Topology.TryBuildEstablishes | utils/create_network.py:66-96 | under any sampling choices: exact out-degrees, no self-loop, no mirrored edge, reachable targets, capped in-degrees |
| Topology.TryLists | utils/create_network.py:66-96 | that order holds every edge once |
| Topology.DrawOrder | utils/create_network.py:66-96 | the addnode targets of a node stand in the order of the draw for it in the first pass, its addconnection targets in that of its draw in the second |
| Topology.ValidateGraph | utils/create_network.py:99-123 | the checker's loop decides its invariants |
| Topology.BuildNetwork | utils/create_network.py:126-140 | the retry loop computes the first successful attempt of RetriesUntilSuccess |
| Topology.RetriesUntilSuccess | utils/create_network.py:126-140 | the attempts follow one another on one generator; what is returned is graph, order and number of the first that is neither deadlocked nor disconnected, and nothing is exactly when none of the allowed ones is |
| Topology.BuilderMeetsChecker | utils/create_network.py:126-140 | every graph build_network returns, for all parameters with which it does not raise, passes every assertion of validate_graph exactly when max_inbound is not negative, which it cannot be when outbound is positive |
| Topology.EdgeCount | utils/create_network.py:286-288 | a valid graph has exactly size * (outbound + recon_outbound) edges |
| Topology.ManualIndependentOfRecon | utils/create_network.py:66-96 | the addnode edges of one attempt do not depend on recon_outbound |
| Feasibility.RejectionsJustified | utils/create_network.py:29-63 | no graph satisfies the invariants for parameters that validate_args rejects |
| Feasibility.RingValid | utils/create_network.py:29-63 | accepted parameters have a valid graph: a ring whose next neighbours are targets, the other nodes going round it |
| Feasibility.AcceptedIffFeasible | utils/create_network.py:29-63 | within range validate_args accepts exactly the parameters of some valid graph |
| Feasibility.BuilderReaches | utils/create_network.py:66-140 | every valid graph is what some generator makes the first attempt return |
| Feasibility.AcceptedIffBuildable | utils/create_network.py:29-140 | parameters are accepted exactly when some generator makes build_network succeed |
| Feasibility.BuildableAccepted | utils/create_network.py:29-140 | after a rejection no generator and no number of attempts could have succeeded |
| Eclipse.ToNetworkYaml | utils/create_network.py:143-173 | the loop lists the targets of every node by attribute in the order in which they were added, with a type unless it is the default and a flag when v2 is off |
| Eclipse.WrittenTypes | utils/create_network.py:143-173 | every addconnection entry names the type exactly when it is not the default and is marked exactly when v2 is off |
| Eclipse.HonestMesh | utils/create_eclipse_network.py:22-26 | the nodes are those of the one mesh that build_network returns for the parameters and the generator, which is valid, so that the assertions cannot fail |
| Eclipse.DrawLinks | utils/create_eclipse_network.py:61-64 | call i of the generator is answered by the targets of blackhole i and the last call by those of the victim: distinct reachable honest nodes, as many as each arm needs |
| Eclipse.EveryDraw | utils/create_eclipse_network.py:61-64 | every choice of links with these properties is what some generator draws |
| Eclipse.BuildArm | utils/create_eclipse_network.py:66-82 | the loop adds the blackholes and the victim of an arm to the nodes of its mesh, with the connection type of the arm |
| Eclipse.SameWiring | utils/create_eclipse_network.py:11-82 | for any mesh and draw the nodes of the relay and recon arms are equal but for connection types |
| Eclipse.ExtraTypes | utils/create_eclipse_network.py:4-6 | the extra connections of every node are full-recon in the recon arm and full-relay in the others |
| Eclipse.Degrees | utils/create_eclipse_network.py:4-9 | every node of an arm has the baseline of addnode connections and, in the relay and recon arms only, the extra connections; blackholes and nobody else are configured as such |
| Eclipse.OpensIff | utils/create_eclipse_network.py:66-82 | the connections of an arm are those of the mesh, of the blackholes to their draws and of the victim to all blackholes and its extra links |
| Eclipse.VictimNeverReached | utils/create_eclipse_network.py:4-12 | in the control arm, or without extras, no relay run from honest nodes ever reaches the victim |
| Eclipse.ClosureIsEveryone | utils/create_eclipse_network.py:4-12 | with extras a set closed under relaying that holds one honest node holds every node |
| Eclipse.EveryoneReached | utils/create_eclipse_network.py:4-12 | with extras some run reaches every honest node, every blackhole and the victim |
| Eclipse.EclipseOutcome | utils/create_eclipse_network.py:4-12 | over a mesh that build_network returned, an honest item can reach the victim exactly in the relay and recon arms with at least one extra link |
| Eclipse.Outcomes | utils/create_eclipse_network.py:4-12 | over the meshes of one generator relay and recon have one wiring, and no start reaches the victim in the control arm while every start can in the others, exactly with at least one extra link |
| Eclipse.Generate | utils/create_eclipse_network.py:43-82 | the three networks as a function of the parameters and the two generators: relay and recon share the honest mesh, all arms share the draws, it stops exactly for more than 8 outbound connections or when a mesh fails, and the outcomes hold of what it returns |

## Left out

- Keys.SchnorrComplete: the asserted nonzero nonce is part of its precondition that signing returned, because a zero nonce makes the source raise.
- Keys.EcdsaComplete: the nonce is any integer; how it is drawn, at random or by RFC 6979, is not modelled.
- Segwit.AddressRoundTrip: versions below zero, which index the character table from its end, are not modelled.
- Messages.TxRoundTrip: field values outside the ranges of struct.pack, for which packing raises, are excluded by the field types; inputs and outputs are values, so sharing of one object between two lists is not captured.
- Psbt.PsbtRoundTrip: the maps of a PSBT are values here, so two positions sharing one map object are not captured; base64 is not modelled.
- P2P.P2PConnection.OnData: where the source would deliver the same message without end, the model delivers it once and reports that the loop does not end.
- P2P.Reassembly: whether a payload deserializes and whether the callback returns depends on the message only; what they do to other objects is not modelled.
- Topology.TryBuildGraph: parameters below zero for a degree and more reachable nodes than nodes, with which the attempt raises, are excluded because validate_args rejects them first.
- Eclipse.ToNetworkYaml: the YAML text around the nodes is not modelled.
- GE.__rmul__ and the reflected operators of FE only dispatch to the modelled methods.
- Hash functions (sha256, tagged hashes, the expansion to 3072 bits) are parameters; their bits are not modelled.
- GetSigOpCount, cooked iteration and signature hash messages of script.py.
- ellswift.py: a rational-function identity with many cases.
- Text formats of network addresses, sockets, threads, RPC, Kubernetes and the scenario runners.
- The rest of MiniWallet, which depends on answers of a node.
