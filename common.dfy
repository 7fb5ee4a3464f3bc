/**
 * Value types shared by the stream blocks and the block framework:
 * bytes, opaque objects, labels, error results and the 64-bit
 * wrap-around of `size_t` / `unsigned long long` arithmetic.
 */
module Common {

  /** One octet of a byte stream. */
  type Byte = b: int | 0 <= b < 0x100

  /**
   * A `Pothos::Object` is identified with its serialized form: the
   * serializer is opaque, so two objects are the same when their
   * encodings are.
   */
  type Object = seq<Byte>

  /** An inline label: its payload (id, data, width) and the element index it tags. */
  datatype Label = Label(data: Object, index: nat)

  /** A data type descriptor: its name (such as "float32") and its vector dimension. */
  datatype DType = DType(name: string, dimension: nat)

  datatype Option<+T> = None | Some(value: T)

  datatype Result<+T, +E> = Success(value: T) | Failure(error: E)

  /** 2^64: `size_t` and `unsigned long long` are 64 bits wide. */
  const U64_LIMIT: int := 0x1_0000_0000_0000_0000

  /** Unsigned 64-bit addition, wrapping around. */
  function Add64(a: nat, b: nat): (r: nat)
    ensures r < U64_LIMIT
    ensures a + b < U64_LIMIT ==> r == a + b
  {
    (a + b) % U64_LIMIT
  }

  /** Unsigned 64-bit subtraction, wrapping around below zero. */
  function Sub64(a: nat, b: nat): (r: nat)
    ensures r < U64_LIMIT
    ensures b <= a < U64_LIMIT ==> r == a - b
  {
    (a - b) % U64_LIMIT
  }

  /** Subtracting what was added gives back the original 64-bit value. */
  lemma SubAfterAdd64(a: nat, b: nat)
    requires a < U64_LIMIT && b < U64_LIMIT
    ensures Sub64(Add64(a, b), b) == a
  {
    if a + b >= U64_LIMIT {
      assert Add64(a, b) == a + b - U64_LIMIT;
    }
  }
}
