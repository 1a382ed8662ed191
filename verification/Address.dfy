/** Addresses and networks as bytes, as numbers and as bits (c/tree.c:346-380, 1073-1075). */
module Address {
  import opened Data

  type Bits = seq<bool>

  function Pow2(n: nat): (r: nat)
    ensures r >= 1
  {
    if n == 0 then 1 else 2 * Pow2(n - 1)
  }

  datatype Network = Network(bytes: Bytes, prefixLength: nat)

  /** network_bit_value: byte `i >> 3`, masked with `1 << (~i & 7)`. */
  predicate NetworkBit(bytes: Bytes, i: nat)
    requires i < 8 * |bytes|
  {
    bytes[i / 8] / Pow2(7 - i % 8) % 2 == 1
  }

  function AddressBits(bytes: Bytes): (a: Bits)
    ensures |a| == 8 * |bytes|
  {
    seq(8 * |bytes|, i requires 0 <= i < 8 * |bytes| => NetworkBit(bytes, i))
  }

  /** The prefix bits that an insert has not yet used at depth `bit`. */
  function Remaining(network: Network, bit: nat): (p: Bits)
    requires network.prefixLength <= 8 * |network.bytes|
    ensures |p| == if bit < network.prefixLength then network.prefixLength - bit else 0
  {
    if bit < network.prefixLength then AddressBits(network.bytes)[bit..network.prefixLength] else []
  }

  /** Going one record down uses up one prefix bit, if there is one. */
  lemma RemainingStep(network: Network, bit: nat)
    requires network.prefixLength <= 8 * |network.bytes| && bit < 8 * |network.bytes|
    ensures bit < network.prefixLength ==>
              && Remaining(network, bit)[0] == NetworkBit(network.bytes, bit)
              && Remaining(network, bit)[1..] == Remaining(network, bit + 1)
    ensures bit >= network.prefixLength ==> Remaining(network, bit) == [] == Remaining(network, bit + 1)
  {
  }
}
