/** Names shared by every module: identities, paths, bytes and the usual wrappers. */
module Base {
  /** A 32-byte BLAKE3 identity, read as a big-endian number so that `<` is the byte-wise order. */
  type Id = nat

  /** Path segments addressing a node (`["file", "a.rs", "fn_main"]`). */
  type NodePath = seq<string>

  newtype byte = b: int | 0 <= b < 256

  type Bytes = seq<byte>

  datatype Option<+T> = None | Some(value: T)

  /** The elements of a sequence. */
  function Elems<T>(s: seq<T>): set<T> {
    set x | x in s
  }

  ghost predicate NoDup<T>(s: seq<T>) {
    forall i, j :: 0 <= i < j < |s| ==> s[i] != s[j]
  }

  /** Lookup in a map as an option, as `HashMap::get`. */
  function Get<K, V>(m: map<K, V>, k: K): Option<V> {
    if k in m then Some(m[k]) else None
  }
}
