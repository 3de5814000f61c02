/** Small shared vocabulary: text values and an optional value (a nullable column or reference). */
module Common {

  /** Java and C++ strings, as sequences of characters. */
  type Text = seq<char>

  /** `None` stands for SQL NULL or a Java `null` reference. */
  datatype Option<+T> = None | Some(value: T)
}
