/** What makes a byte string a finished transducer for a finite map from keys to values. */
module FstFile {
  import opened Keys
  import opened Transducer
  import opened StateBytes
  import opened Encoder

  /** The data holds the graph g, rooted at root, between a header and a footer. */
  ghost predicate Laid(data: seq<Byte>, g: Graph, root: nat, count: nat) {
    && HEADER_SIZE + 16 <= |data| && data[..HEADER_SIZE] == HeaderBytes()
    && data[|data| - 16..] == FooterBytes(count, root)
    && GraphOk(g) && Encodes(data, g) && Known(g, root)
  }

  ghost predicate IsFst(data: seq<Byte>, g: Graph, root: nat, count: nat, m: map<Key, U64>) {
    Laid(data, g, root, count) && Holds(g, StateAt(g, root), m)
  }

  /** The data is a transducer for m. */
  ghost predicate Represents(data: seq<Byte>, m: map<Key, U64>) {
    exists g: Graph, root: nat, count: nat :: IsFst(data, g, root, count, m)
  }

  /** The data is a transducer for m that says it holds count keys. */
  ghost predicate Counts(data: seq<Byte>, m: map<Key, U64>, count: nat) {
    exists g: Graph, root: nat :: IsFst(data, g, root, count, m)
  }
}
