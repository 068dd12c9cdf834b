/** The values shared by every part of the routing node: bytes, routing addresses,
    lightning public keys, machine integers and local channels. */
module Types {

  type Byte = bv8
  type Bytes = seq<Byte>

  /** A routing address: four bytes. */
  type Address = a: Bytes | |a| == 4 witness [0, 0, 0, 0]

  /** A compressed lightning public key: thirty-three bytes. */
  type Key = k: Bytes | |k| == 33 witness seq(33, _ => 0)

  /** A position in the address trie: the branches taken from the root, true is right. */
  type Path = seq<bool>

  /** The depth of the trie, and so the number of bits of an address. */
  const BITS := 32

  /** A full path, one bit per level. */
  type Bits = p: Path | |p| == BITS witness seq(BITS, _ => false)

  type uint16 = x: int | 0 <= x < 0x1_0000
  type uint32 = x: int | 0 <= x < 0x1_0000_0000
  type uint64 = x: int | 0 <= x < 0x1_0000_0000_0000_0000
  type int64 = x: int | -0x8000_0000_0000_0000 <= x < 0x8000_0000_0000_0000

  datatype Option<+T> = None | Some(value: T)

  /** A channel of the local node, as the lightning client lists it. */
  datatype Channel = Channel(remote: Key, balance: int64)

  /** A destination and the capacity at which a peer says it can be reached. */
  datatype Destination = Destination(address: Address, capacity: int64)
}
