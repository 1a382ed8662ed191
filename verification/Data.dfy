/** The Perl data that the tree stores, and the ways of combining two records. */
module Data {
  function Max(m: nat, n: nat): nat { if m < n then n else m }

  type Byte = x: int | 0 <= x < 256
  type Bytes = seq<Byte>

  /** A character of a key or a byte of a frozen file. Keys of different contents are taken to differ, which only an
      unbounded alphabet allows. */
  type Symbol = int

  /** A base64 SHA-1. */
  type Key = seq<Symbol>

  const SHA1_KEY_LENGTH := 27

  /** A Perl scalar is opaque here; arrays and hashes are references, and so are objects such as Math::UInt128
      numbers. */
  datatype Value =
    | Scalar(text: Bytes)
    | Object(text: Bytes)
    | Array(items: seq<Value>)
    | Map(entries: map<Bytes, Value>)

  predicate IsReference(v: Value) { !v.Scalar? }

  datatype Strategy = NoMerge | TopLevel | Recurse | AddOnly

  /** What is assumed of key_for_data: equal keys mean equal contents, and every key has the same length. */
  ghost predicate IsKeyFunction(keyFor: Value -> Key) {
    && (forall v, w :: keyFor(v) == keyFor(w) ==> v == w)
    && (forall v :: |keyFor(v)| == SHA1_KEY_LENGTH)
  }
}
