/** Types shared by the modules of this project. */
module Common {

  /** A C++ std::string or protobuf string field, as the bytes it holds. */
  type Bytes = seq<bv8>

  datatype Option<+T> = None | Some(value: T)

  lemma ConcatAssoc<T>(a: seq<T>, b: seq<T>, c: seq<T>)
    ensures (a + b) + c == a + (b + c)
  {
  }
}
