/** Small shared vocabulary: optional values and bytes. */
module Base {

  /** Python's `None` or a present value. */
  datatype Option<+T> = None | Some(value: T)

  /** One octet of a file, a stream or a payload. */
  newtype byte = x: int | 0 <= x < 256

  /** The code point with the same value as a byte (Latin-1); for an ASCII byte this is
      also what UTF-8 decoding gives. */
  function CharOf(b: byte): (c: char)
    ensures c as int == b as int
  {
    (b as int) as char
  }

  /** Byte-wise decoding of an identifier to text, one code point per byte (Latin-1);
      it agrees with UTF-8 decoding exactly on ASCII identifiers. */
  function Text(bs: seq<byte>): string
  {
    if bs == [] then [] else [CharOf(bs[0])] + Text(bs[1..])
  }

  /** Decoding keeps the length and gives every character the code of its byte. */
  lemma {:induction false} TextCodes(bs: seq<byte>)
    ensures |Text(bs)| == |bs|
    ensures forall i :: 0 <= i < |bs| ==> Text(bs)[i] as int == bs[i] as int
  {
    if bs != [] {
      TextCodes(bs[1..]);
      assert forall i :: 1 <= i < |bs| ==> Text(bs)[i] == Text(bs[1..])[i - 1];
    }
  }

  /** Moving the head of the second part of a concatenation to the end of the first. */
  lemma AppendShift<T>(done: seq<T>, x: T, tail: seq<T>)
    ensures done + ([x] + tail) == (done + [x]) + tail
  {
  }
}
