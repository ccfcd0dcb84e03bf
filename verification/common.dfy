/** Small shared datatypes: a nullable value and an outcome that may carry a runtime exception. */
module Common {

  /** A value that may be absent; stands for a C# reference or delegate that may be null. */
  datatype Option<+T> = None | Some(value: T)

  /** The .NET exceptions the modelled helpers can raise. */
  datatype Exception = IndexOutOfRange | DivideByZero

  /** A result or the exception the C# code would throw instead. */
  datatype Result<+T> = Ok(value: T) | Throws(error: Exception)

  /** Peeling one element off a suffix, after a prefix. */
  lemma SnocDrop<T>(a: seq<T>, s: seq<T>, i: nat)
    requires i < |s|
    ensures (a + [s[i]]) + s[i + 1..] == a + s[i..]
  {
    assert s[i..] == [s[i]] + s[i + 1..];
  }
}
