/** Values shared by the field decoder, the location cell and the ingestion server. */
module Values {

  /** A C++ `float`, kept as its IEEE 754 binary32 bit pattern. The model never
      computes with floats; it only stores, copies and compares them. */
  datatype Float32 = Float32(bits: bv32)

  /** `0.0f`: the default of every `Location` reading and the value the decoder
      yields for a field whose key is absent. */
  const PositiveZero: Float32 := Float32(0)

  /** An optional value. */
  datatype Option<+T> = None | Some(value: T)

  /** A value or the error that stopped its computation. */
  datatype Result<+T, +E> = Success(value: T) | Failure(error: E)

  /** The text-to-float conversion (`std::stof` in the source), left uninterpreted.
      It is partial: `None` stands for the exception `std::stof` throws when the
      text does not start with a number or the number is out of range. */
  type Converter = string -> Option<Float32>
}
