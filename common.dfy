/** Types shared by the relay server and the viewing client. */
module Common {

  /** One octet of an HTTP body, as its unsigned value (what InputStream.read yields). */
  type Byte = b: int | 0 <= b < 256

  /** A Java reference that may be null: None stands for null. */
  datatype Option<T> = None | Some(value: T)
}
