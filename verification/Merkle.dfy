/** The Merkle root: one hash over a domain separator and ten section hashes. */
module Merkle {
  import opened Wire

  /** "limnifs/v1". */
  const DOMAIN_SEPARATOR: Bytes := [0x6C, 0x69, 0x6D, 0x6E, 0x69, 0x66, 0x73, 0x2F, 0x76, 0x31]

  datatype SectionHashes = SectionHashes(
    metadata: Digest, formatHeader: Digest, featureFlags: Digest, metadataReference: Digest, slabIndex: Digest,
    cryptoParams: Digest, ecParams: Digest, dmsPolicy: Digest, deltaLinkage: Digest, history: Digest)

  function Slot(s: SectionHashes, i: nat): Digest
    requires i < 10
  {
    match i
    case 0 => s.metadata
    case 1 => s.formatHeader
    case 2 => s.featureFlags
    case 3 => s.metadataReference
    case 4 => s.slabIndex
    case 5 => s.cryptoParams
    case 6 => s.ecParams
    case 7 => s.dmsPolicy
    case 8 => s.deltaLinkage
    case 9 => s.history
  }

  /** What the hash has absorbed after `k` slots. */
  function Absorbed(s: SectionHashes, k: nat): (b: Bytes)
    requires k <= 10
    ensures |b| == 10 + 32 * k
    decreases k
  {
    if k == 0 then DOMAIN_SEPARATOR else Absorbed(s, k - 1) + Slot(s, k - 1)
  }

  function Preimage(s: SectionHashes): Bytes {
    Absorbed(s, 10)
  }

  function MerkleRoot(h: Hash, s: SectionHashes): Digest {
    h(Preimage(s))
  }

  lemma {:induction false} AbsorbedInjective(s: SectionHashes, t: SectionHashes, k: nat)
    requires k <= 10 && Absorbed(s, k) == Absorbed(t, k)
    ensures forall i :: 0 <= i < k ==> Slot(s, i) == Slot(t, i)
  {
    if k != 0 {
      var n := 10 + 32 * (k - 1);
      assert Absorbed(s, k)[..n] == Absorbed(s, k - 1) && Absorbed(s, k)[n..] == Slot(s, k - 1);
      assert Absorbed(t, k)[..n] == Absorbed(t, k - 1) && Absorbed(t, k)[n..] == Slot(t, k - 1);
      AbsorbedInjective(s, t, k - 1);
    }
  }

  /** The preimage is 330 bytes wide and determines every slot. */
  lemma PreimageInjective(s: SectionHashes, t: SectionHashes)
    ensures |Preimage(s)| == 330
    ensures Preimage(s) == Preimage(t) <==> s == t
  {
    if Preimage(s) == Preimage(t) {
      AbsorbedInjective(s, t, 10);
      assert forall i :: 0 <= i < 10 ==> Slot(s, i) == Slot(t, i);
      assert Slot(s, 0) == Slot(t, 0) && Slot(s, 1) == Slot(t, 1) && Slot(s, 2) == Slot(t, 2)
          && Slot(s, 3) == Slot(t, 3) && Slot(s, 4) == Slot(t, 4) && Slot(s, 5) == Slot(t, 5)
          && Slot(s, 6) == Slot(t, 6) && Slot(s, 7) == Slot(t, 7) && Slot(s, 8) == Slot(t, 8)
          && Slot(s, 9) == Slot(t, 9);
    }
  }

  /** The root in full: the hash of "limnifs/v1" and the ten section hashes in this order. */
  lemma RootSpelledOut(h: Hash, s: SectionHashes)
    ensures MerkleRoot(h, s)
         == h([0x6C, 0x69, 0x6D, 0x6E, 0x69, 0x66, 0x73, 0x2F, 0x76, 0x31]
              + s.metadata + s.formatHeader + s.featureFlags + s.metadataReference + s.slabIndex
              + s.cryptoParams + s.ecParams + s.dmsPolicy + s.deltaLinkage + s.history)
  {
    assert Absorbed(s, 3) == DOMAIN_SEPARATOR + s.metadata + s.formatHeader + s.featureFlags;
    assert Absorbed(s, 6) == Absorbed(s, 3) + s.metadataReference + s.slabIndex + s.cryptoParams;
    assert Absorbed(s, 9) == Absorbed(s, 6) + s.ecParams + s.dmsPolicy + s.deltaLinkage;
  }

  /** The streaming hash state. */
  class Hasher {
    const h: Hash
    var absorbed: Bytes

    constructor (h: Hash)
      ensures this.h == h && absorbed == []
    {
      this.h := h;
      absorbed := [];
    }

    method Update(b: Bytes)
      modifies this
      ensures absorbed == old(absorbed) + b
    {
      absorbed := absorbed + b;
    }

    function Digest(): Digest
      reads this
    {
      h(absorbed)
    }
  }

  method ComputeMerkleRoot(h: Hash, s: SectionHashes) returns (root: Digest)
    ensures root == MerkleRoot(h, s)
  {
    var state := new Hasher(h);
    state.Update(DOMAIN_SEPARATOR);
    state.Update(s.metadata);
    assert state.absorbed == Absorbed(s, 1);
    state.Update(s.formatHeader);
    state.Update(s.featureFlags);
    state.Update(s.metadataReference);
    assert state.absorbed == Absorbed(s, 4);
    state.Update(s.slabIndex);
    state.Update(s.cryptoParams);
    state.Update(s.ecParams);
    assert state.absorbed == Absorbed(s, 7);
    state.Update(s.dmsPolicy);
    state.Update(s.deltaLinkage);
    state.Update(s.history);
    assert state.absorbed == Absorbed(s, 10);
    root := state.Digest();
  }
}
