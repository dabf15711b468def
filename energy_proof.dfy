/**
 * The commit-and-reveal energy "proof" of the smart meter (class `ZKSnarkEnergyProof`).
 * Despite its name it is not a zero-knowledge proof: the proof is the pair of the secret
 * value and its commitment, so the secret is disclosed, and verifying only recomputes
 * the commitment of the disclosed value.
 *
 * The commitment of `value` is `sha256(str(value).encode()).hexdigest()`. SHA-256 itself
 * is not modelled: an object is built with the hash function it uses, any function from
 * bytes to 32-byte digests, and every property below holds whatever that function is.
 */
module EnergyProof {
  import opened Wrappers
  import opened Utf8
  import opened Decimal
  import opened Hex

  /** A SHA-256 digest: 32 bytes. */
  type Digest = d: Bytes | |d| == 32 witness seq(32, _ => 0)

  /** The hash function the commitment uses (SHA-256, FIPS 180-4, section 6.2). */
  type Hash = Bytes -> Digest

  /** The tuple `generate_proof` returns and `verify_proof` takes. */
  datatype Proof = Proof(value: int, commitment: string)

  /** `str(value).encode()`: the ASCII bytes of the decimal rendering of `value`. */
  function HashInput(value: int): (b: Bytes)
    ensures |b| == |DecimalString(value)|
    ensures forall i :: 0 <= i < |b| ==> b[i] as int == DecimalString(value)[i] as int
  {
    DecimalStringIsAscii(value);
    Encode(DecimalString(value))
  }

  lemma DecimalStringIsAscii(n: int)
    ensures IsAscii(DecimalString(n))
  {
  }

  /** Distinct values feed distinct byte strings to the hash. */
  lemma HashInputInjective(a: int, b: int)
    requires HashInput(a) == HashInput(b)
    ensures a == b
  {
    DecimalStringIsAscii(a);
    DecimalStringIsAscii(b);
    AsciiEncodeInjective(DecimalString(a), DecimalString(b));
    DecimalStringInjective(a, b);
  }

  class ZKSnarkEnergyProof {
    /** The hash `commit_energy` applies. */
    const sha256: Hash
    const secretEnergyValue: int
    /** Computed once from the secret when the object is built; never reassigned. */
    const publicCommitment: string := CommitEnergy(secretEnergyValue)

    constructor (sha256: Hash, secretEnergyValue: int)
      ensures this.sha256 == sha256 && this.secretEnergyValue == secretEnergyValue
      ensures publicCommitment == CommitEnergy(secretEnergyValue)
    {
      this.sha256 := sha256;
      this.secretEnergyValue := secretEnergyValue;
    }

    /** The commitment to `value`: 64 lowercase hex digits that read back as the digest
        of `str(value).encode()`. */
    function CommitEnergy(value: int): (c: string)
      ensures |c| == 64 && IsLowerHex(c)
      ensures HexDecode(c) == Some(sha256(HashInput(value)))
    {
      var digest := sha256(HashInput(value));
      HexRoundTrip(digest);
      HexDigest(digest)
    }

    /** Discloses the secret together with its commitment; such a proof always verifies. */
    function GenerateProof(): (p: Proof)
      ensures p.value == secretEnergyValue && p.commitment == publicCommitment
      ensures VerifyProof(p)
    {
      Proof(secretEnergyValue, publicCommitment)
    }

    /** Accepts exactly the proofs whose commitment is the hex text of the digest of the
        disclosed value; in particular a commitment that is not 64 lowercase hex digits
        is refused. */
    function VerifyProof(proof: Proof): (ok: bool)
      ensures ok <==> HexDecode(proof.commitment) == Some(sha256(HashInput(proof.value)))
      ensures ok ==> |proof.commitment| == 64 && IsLowerHex(proof.commitment)
    {
      var digest := sha256(HashInput(proof.value));
      assert HexDecode(proof.commitment) == Some(digest) ==> proof.commitment == HexDigest(digest) by {
        if HexDecode(proof.commitment) == Some(digest) {
          HexDecodeCanonical(proof.commitment, digest);
        }
      }
      proof.commitment == CommitEnergy(proof.value)
    }
  }

  /** A commitment that differs from the recomputed one is refused. */
  lemma MismatchRejected(zk: ZKSnarkEnergyProof, value: int, commitment: string)
    requires commitment != zk.CommitEnergy(value)
    ensures !zk.VerifyProof(Proof(value, commitment))
  {
  }

  /** Verification looks only at the proof and the hash: two objects with the same hash
      but different secrets decide every proof alike. */
  lemma VerifyIgnoresStoredSecret(zk1: ZKSnarkEnergyProof, zk2: ZKSnarkEnergyProof, proof: Proof)
    requires zk1.sha256 == zk2.sha256
    ensures zk1.VerifyProof(proof) == zk2.VerifyProof(proof)
  {
  }

  /** Two commitments are equal exactly when the two digests are. */
  lemma CommitmentsEqualIffDigestsEqual(zk: ZKSnarkEnergyProof, a: int, b: int)
    ensures zk.CommitEnergy(a) == zk.CommitEnergy(b) <==> zk.sha256(HashInput(a)) == zk.sha256(HashInput(b))
  {
  }

  /** Equal commitments for distinct values can come only from a collision of the hash on
      two distinct inputs. */
  lemma CommitmentCollisionIsHashCollision(zk: ZKSnarkEnergyProof, a: int, b: int)
    requires a != b && zk.CommitEnergy(a) == zk.CommitEnergy(b)
    ensures HashInput(a) != HashInput(b)
    ensures zk.sha256(HashInput(a)) == zk.sha256(HashInput(b))
  {
    CommitmentsEqualIffDigestsEqual(zk, a, b);
    if HashInput(a) == HashInput(b) {
      HashInputInjective(a, b);
    }
  }

  /** Binding: where the hash does not collide on the two inputs, the commitments of two
      values are equal exactly when the values are. */
  lemma CommitmentBinding(zk: ZKSnarkEnergyProof, a: int, b: int)
    requires zk.sha256(HashInput(a)) == zk.sha256(HashInput(b)) ==> HashInput(a) == HashInput(b)
    ensures zk.CommitEnergy(a) == zk.CommitEnergy(b) <==> a == b
  {
    CommitmentsEqualIffDigestsEqual(zk, a, b);
    if zk.CommitEnergy(a) == zk.CommitEnergy(b) {
      HashInputInjective(a, b);
    }
  }

  /** A commitment that verifies against two different disclosed values exhibits a
      collision of the hash. */
  lemma VerifyBinding(zk: ZKSnarkEnergyProof, p: Proof, q: Proof)
    requires zk.VerifyProof(p) && zk.VerifyProof(q)
    requires p.commitment == q.commitment && p.value != q.value
    ensures HashInput(p.value) != HashInput(q.value)
    ensures zk.sha256(HashInput(p.value)) == zk.sha256(HashInput(q.value))
  {
    if HashInput(p.value) == HashInput(q.value) {
      HashInputInjective(p.value, q.value);
    }
  }

  /** The demonstration scenario: commit to 42, disclose it, and verify the disclosure. */
  method RunDemo(sha256: Hash) returns (proof: Proof, verificationResult: bool)
    ensures proof == Proof(42, HexDigest(sha256(HashInput(42))))
    ensures HashInput(42) == [0x34, 0x32]
    ensures |proof.commitment| == 64 && IsLowerHex(proof.commitment)
    ensures verificationResult
  {
    var zkProof := new ZKSnarkEnergyProof(sha256, 42);
    proof := zkProof.GenerateProof();
    verificationResult := zkProof.VerifyProof(proof);
  }
}
