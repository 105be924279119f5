/** What several modules share. */
module Collections {

  datatype Option<T> = None | Some(value: T)

  /** A sequence without its `j`-th element. */
  function Drop<T>(s: seq<T>, j: nat): seq<T>
    requires j < |s|
  {
    s[..j] + s[j + 1..]
  }
}
