/** Value types shared by the whole model. */
module Types {

  /** A .NET `byte`: an integer in 0..255. */
  type byte = b: int | 0 <= b < 256

  datatype Option<+T> = None | Some(value: T)

  /** What a run can fail with. Each constructor stands for one exception the program can raise. */
  datatype Error =
    | IndexOutOfRange          // `sec[i + 3]` past the end of a section body
    | InvalidData              // the compressed payload could not be inflated
    | DuplicateKey(key: string) // `Dictionary.Add` with a key that is already present
    | FileUnreadable(path: string) // the container file could not be opened or read

  datatype Result<+T> = Success(value: T) | Failure(error: Error) {
    predicate IsFailure() { Failure? }
    function PropagateFailure<U>(): Result<U>
      requires Failure?
    {
      Failure(error)
    }
    function Extract(): T
      requires Success?
    {
      value
    }
  }

  /**
   * The foreign calls the decoder makes: zlib inflate (`ZLibStream`), which may fail, and UTF-8
   * decoding (`Encoding.UTF8.GetString`), which never fails.
   */
  datatype Library = Library(inflate: seq<byte> -> Option<seq<byte>>, utf8: seq<byte> -> string)
}
