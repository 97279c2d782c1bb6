/** The arithmetic of the signature's `v` through encoding, decoding and recovery. */
module Eip155 {
  import opened Common

  const TWO63: int := 0x8000_0000_0000_0000

  /** `sig.v + 35 + 2 * chainId` in 64 bits, the `v` that goes on the wire. */
  function WireV(v: Byte, chainId: Uint64): Uint64 {
    (v + 35 + 2 * chainId) % TWO64
  }

  /** The chain id `fromHex` reads out of the wire `v`. */
  function WireChainId(wire: Uint64): Uint64 {
    if wire >= 35 then (wire - 35) / 2 else 0
  }

  /** The recovery id `recoverAddress` computes from an eight-bit `v`. */
  function RecId(v: Byte, chainId: Uint64): Outcome<nat> {
    if v == 0 || v == 1 then Ok(v)
    else if v < 35 then Throw("recoverAddress: unsupported v")
    else if (v - 35) / 2 != chainId then Throw("recoverAddress: chainId mismatch")
    else Ok(v - (35 + 2 * chainId))
  }

  /** What a receiver recovers with, after the wire `v` was cut to eight bits. */
  function ReceivedRecId(recid: Byte, chainId: Uint64): Outcome<nat> {
    var wire := WireV(recid, chainId);
    RecId(wire % 256, WireChainId(wire))
  }

  lemma WireVParts(recid: Byte, chainId: Uint64)
    requires recid <= 1
    ensures var full := recid + 35 + 2 * (chainId % TWO63);
            WireV(recid, chainId) == (if full < TWO64 then full else full - TWO64)
    ensures WireV(recid, chainId) % 2 == 1 - recid
  {
    var c := chainId % TWO63;
    assert chainId == c || chainId == c + TWO63;
    var full := recid + 35 + 2 * c;
    assert full % TWO64 == if full < TWO64 then full else full - TWO64;
  }

  /**
   * For every chain id: the receiver recovers with the signer's recovery id
   * exactly when 35 + 2 * chainId + recid fits eight bits (chain ids that
   * differ by 2^63 share their wire `v`). It recovers with the other id
   * exactly when the cut `v` is 0 or 1, and throws in every other case.
   */
  lemma RecIdSurvivesIff(recid: Byte, chainId: Uint64)
    requires recid <= 1
    ensures ReceivedRecId(recid, chainId) == Ok(recid) <==> 35 + 2 * (chainId % TWO63) + recid <= 255
    ensures ReceivedRecId(recid, chainId) == Ok(1 - recid) <==> WireV(recid, chainId) % 256 <= 1
    ensures match ReceivedRecId(recid, chainId)
            case Ok(r) => r == recid || r == 1 - recid
            case Throw(_) => true
            case Undefined => false
  {
    hide WireV;
    WireVParts(recid, chainId);
    var wire := WireV(recid, chainId);
    assert (wire % 256) % 2 == wire % 2;
  }

  /** The chain id itself survives exactly when the wire `v` does not wrap. */
  lemma ChainIdSurvivesIff(recid: Byte, chainId: Uint64)
    requires recid <= 1
    ensures WireChainId(WireV(recid, chainId)) == chainId <==> 35 + 2 * chainId + recid < TWO64
  {
    hide WireV;
    WireVParts(recid, chainId);
  }

  /** The flipped case is real: chain id 110 with recovery id 1 reads back as 0. */
  lemma FlippedExample()
    ensures ReceivedRecId(1, 110) == Ok(0)
  {
    assert WireV(1, 110) == 256;
  }
}
