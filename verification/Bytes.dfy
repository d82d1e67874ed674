/** Bytes, the errors the Python code raises, and the `struct` formats it uses. */
module Bytes {

  type byte = x: int | 0 <= x < 0x100
  type u16 = x: int | 0 <= x < 0x1_0000

  /** The exceptions that reach a caller. */
  datatype Error =
    | StructError           // struct.error: a buffer does not fit its format, or a value its field
    | ValueError            // a UUID that is neither 2 nor 16 bytes, or a malformed hex string
    | AssertionError
    | IndexError
    | KeyError
    | InvalidServiceId
    | InvalidStatus         // the device answered with the status opcode
    | InvalidOpcode
    | InvalidLength         // a BTP error: the data has not the length the format needs
    | NotACharacteristic
    | NoSuitableDevice

  datatype Result<+T> = Ok(value: T) | Err(error: Error) {
    predicate IsFailure() { Err? }

    function PropagateFailure<U>(): Result<U>
      requires Err?
    {
      Err(error)
    }

    function Extract(): T
      requires Ok?
    {
      value
    }
  }

  datatype Option<+T> = None | Some(value: T)

  /** `struct.pack('<H', n)`. */
  function PackU16(n: u16): seq<byte> {
    [n % 0x100, n / 0x100]
  }

  /** `struct.unpack('<H', b)`. */
  function UnpackU16(b: seq<byte>): u16
    requires |b| == 2
  {
    b[0] as int + 0x100 * (b[1] as int)
  }

  lemma PackUnpackU16(n: u16)
    ensures |PackU16(n)| == 2 && UnpackU16(PackU16(n)) == n
  {
  }

  lemma UnpackPackU16(b: seq<byte>)
    requires |b| == 2
    ensures PackU16(UnpackU16(b)) == b
  {
    assert UnpackU16(b) == b[0] as int + 0x100 * (b[1] as int);
  }

  /** `s[::-1]`. */
  function Reversed<T>(s: seq<T>): (r: seq<T>)
    ensures |r| == |s|
  {
    seq(|s|, i requires 0 <= i < |s| => s[|s| - 1 - i])
  }

  lemma ReversedTwice<T>(s: seq<T>)
    ensures Reversed(Reversed(s)) == s
  {
  }

  lemma Associative<T>(a: seq<T>, b: seq<T>, c: seq<T>)
    ensures a + (b + c) == a + b + c
  {
  }
}
