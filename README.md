# Commit-and-reveal energy proof

A Dafny model of the smart meter's energy "proof", the class `ZKSnarkEnergyProof` of
`iot/mqtt_energy_publisher.py`. Despite its name it is not a zero-knowledge proof. It is a
plain commit-and-reveal hash check:

- an object is built from a secret integer reading and stores that secret with its
  commitment, `sha256(str(value).encode()).hexdigest()`;
- `generate_proof` hands out the pair (secret, commitment), so the secret is disclosed;
- `verify_proof` recomputes the commitment of the disclosed value and compares it with the
  commitment in the pair.

The model keeps that shape. `EnergyProof.ZKSnarkEnergyProof` is a class whose fields are
`const`: nothing reassigns them after construction. Its three operations are functions.
SHA-256 is not modelled. Each object carries the hash function it uses, of type
`Bytes -> Digest` with 32-byte digests. Every property below holds for any such function.
The encodings around the hash are modelled concretely, each with an inverse that shows it
is injective:

- `Decimal`: Python's `str` of an integer, and a parser for its canonical form;
- `Utf8`: `str.encode()` (UTF-8, RFC 3629, section 3) and the decoding of one character;
- `Hex`: `hexdigest()` lowercase hex text, and its decoder.

Files: `wrappers.dfy` (Option), `utf8.dfy`, `decimal.dfy`, `hex.dfy`, `energy_proof.dfy`.

## Model

| member | source | states |
|---|---|---|
| `EnergyProof.ZKSnarkEnergyProof.constructor` | iot/mqtt_energy_publisher.py:13-20 | stores the secret and the hash; the public commitment is the commitment of the secret, and both are constant for the object's lifetime |
| `EnergyProof.ZKSnarkEnergyProof.CommitEnergy` | iot/mqtt_energy_publisher.py:22-30 | the commitment is 64 lowercase hex digits that decode to the hash of `str(value).encode()` |
| `EnergyProof.ZKSnarkEnergyProof.GenerateProof` | iot/mqtt_energy_publisher.py:32-40 | returns exactly (secret, stored commitment) and that proof always verifies (completeness) |
| `EnergyProof.ZKSnarkEnergyProof.VerifyProof` | iot/mqtt_energy_publisher.py:42-54 | true exactly when the commitment decodes to the digest of the disclosed value; a commitment that is not 64 lowercase hex digits is refused |
| `EnergyProof.MismatchRejected` | iot/mqtt_energy_publisher.py:51-52 | a commitment different from the recomputed one yields false |
| `EnergyProof.VerifyIgnoresStoredSecret` | iot/mqtt_energy_publisher.py:50-54 | the verdict depends on the proof and the hash only, not on the object's secret or commitment |
| `EnergyProof.HashInput` | iot/mqtt_energy_publisher.py:30 | the hash input is the decimal rendering of the value, one ASCII byte per character |
| `EnergyProof.DecimalStringIsAscii` | iot/mqtt_energy_publisher.py:30 | `str(value)` is ASCII text |
| `EnergyProof.HashInputInjective` | iot/mqtt_energy_publisher.py:30 | distinct values give distinct hash inputs |
| `EnergyProof.CommitmentsEqualIffDigestsEqual` | iot/mqtt_energy_publisher.py:28-30 | two commitments are equal exactly when the two digests are |
| `EnergyProof.CommitmentCollisionIsHashCollision` | iot/mqtt_energy_publisher.py:30 | equal commitments for distinct values imply a hash collision on distinct inputs |
| `EnergyProof.CommitmentBinding` | iot/mqtt_energy_publisher.py:22-30 | if the hash does not collide on the two inputs, equal commitments mean equal values |
| `EnergyProof.VerifyBinding` | iot/mqtt_energy_publisher.py:42-54 | one commitment accepted for two different disclosed values exhibits a hash collision |
| `EnergyProof.RunDemo` | iot/mqtt_energy_publisher.py:57-73 | the demo discloses exactly (42, hex text of the hash of the bytes "42"), a 64-digit commitment, and verification returns true |
| `Decimal.DigitValue` | iot/mqtt_energy_publisher.py:30 | a digit's value is below 10 and is 0 only for '0' |
| `Decimal.DigitChar` | iot/mqtt_energy_publisher.py:30 | the digit character of a value below 10 reads back as that value |
| `Decimal.NatToDecimal` | iot/mqtt_energy_publisher.py:30 | digits of a non-negative integer: canonical (no leading zero), starting with '0' only for zero |
| `Decimal.DecimalString` | iot/mqtt_energy_publisher.py:30 | `str(n)` is canonical and starts with '-' exactly for negative `n` |
| `Decimal.ParseDecimal` | iot/mqtt_energy_publisher.py:30 | accepts exactly canonical decimal text; the result is negative exactly when the text starts with '-' |
| `Decimal.NatToDecimalValue` | iot/mqtt_energy_publisher.py:30 | the digits of `n` denote `n` |
| `Decimal.CanonicalNatRoundTrip` | iot/mqtt_energy_publisher.py:30 | a canonical digit string is the rendering of the number it denotes |
| `Decimal.DecimalRoundTrip` | iot/mqtt_energy_publisher.py:30 | parsing `str(n)` gives back `n` |
| `Decimal.ParseDecimalCanonical` | iot/mqtt_energy_publisher.py:30 | any text the parser accepts is `str` of its value |
| `Decimal.DecimalStringInjective` | iot/mqtt_energy_publisher.py:30 | distinct integers have distinct renderings |
| `Decimal.DecimalStringExamples` | iot/mqtt_energy_publisher.py:30 | renderings of 42, 0, -7 and 1000 |
| `Utf8.EncodeChar` | iot/mqtt_energy_publisher.py:30 | one character is 1 to 4 bytes, the length fixed by its range, a lead byte then continuation bytes |
| `Utf8.EncodeCharDecodes` | iot/mqtt_energy_publisher.py:30 | decoding a character's bytes gives its scalar value |
| `Utf8.EncodeCharInjective` | iot/mqtt_energy_publisher.py:30 | distinct characters have distinct encodings |
| `Utf8.Encode` | iot/mqtt_energy_publisher.py:30 | encoding never shortens text, and ASCII text is one byte per character equal to its code |
| `Utf8.AsciiEncodeInjective` | iot/mqtt_energy_publisher.py:30 | distinct ASCII strings have distinct encodings |
| `Hex.NibbleValue` | iot/mqtt_energy_publisher.py:28-30 | a hex digit's value is below 16 |
| `Hex.NibbleChar` | iot/mqtt_energy_publisher.py:28-30 | the lowercase digit of a nibble reads back as that nibble |
| `Hex.HexDigest` | iot/mqtt_energy_publisher.py:28-30 | two lowercase hex digits per byte |
| `Hex.HexDecode` | iot/mqtt_energy_publisher.py:28-30 | accepts exactly lowercase hex text of even length, half as many bytes as digits |
| `Hex.HexRoundTrip` | iot/mqtt_energy_publisher.py:28-30 | decoding the hex text of `d` gives `d` |
| `Hex.HexDecodeCanonical` | iot/mqtt_energy_publisher.py:28-30 | any text the decoder accepts is the hex text of what it decodes to |
| `Hex.HexDigestInjective` | iot/mqtt_energy_publisher.py:28-30 | distinct byte strings have distinct hex texts |

## Left out

- SHA-256 (`hashlib.sha256`, iot/mqtt_energy_publisher.py:30) is a library function. Here it is a parameter of the object, any function from bytes to 32 bytes. Collision resistance is never assumed globally. `CommitmentBinding` takes as a hypothesis that the hash does not collide on the two inputs it compares.
- The `print` logging at iot/mqtt_energy_publisher.py:39, 50, 53, 69 and 73 is output only and does not affect any result.
- The `py_ecc` import (iot/mqtt_energy_publisher.py:2) is unused; no pairing or curve arithmetic takes place.
- The Web3 connection, contract address and ABI literal (iot/mqtt_energy_publisher.py:81-283) are a network client and static data.
- `zk_snarks/zk_energy_proof.py` is not part of this model. It holds the MQTT publisher: broker connection, background network thread, publish, `time.sleep` pacing, interrupt shutdown, clock-and-float reading generation and JSON serialisation. All of it is I/O, the clock or a foreign serialiser.
- `migrations/1_initial_migration.js` and `migrations/2_deploy_contracts.js` are deployment scripts and are not part of this model.
- Values are integers. The class documents `int`, and `str()` of another Python type is not modelled.
- A proof is a pair of an integer and a string. A Python argument that is not a pair, or whose commitment is not a string, is not modelled.
- Python lets outside code reassign an object's attributes. The model's fields are constant because no method of the class reassigns them.
- `commit_energy` returns lowercase hex text, not bytes, and no check rejects a negative value; the model accepts every integer the code renders.
- `DecimalString`: Python's int-to-str digit limit (4300 digits by default, `ValueError` beyond it) is not modelled; the model renders every integer, so `CommitEnergy`, `VerifyProof` and the constructor never fail on a very large value.
