/** The standard input as the filter sees it through `bufio.Reader.ReadByte`:
    a forward-only byte stream that ends either cleanly (`io.EOF`) or with an
    I/O error. */
module ByteStream {
  import opened GoStrings

  const Newline: byte := 10

  /** The `err` that `ReadByte` returns: nil, `io.EOF`, or any other error. */
  datatype ReadErr = NoErr | EndOfFile | IoError

  class ByteReader {
    /** every byte the stream will deliver, in order */
    const input: seq<byte>
    /** whether the stream ends in an I/O error instead of `io.EOF` */
    const failure: bool
    /** how many bytes have been read so far */
    var pos: nat

    ghost predicate Valid()
      reads this
    {
      pos <= |input|
    }

    /** the bytes not yet read */
    function Rest(): seq<byte>
      reads this
      requires Valid()
    {
      input[pos..]
    }

    constructor (input: seq<byte>, failure: bool)
      ensures Valid()
      ensures this.input == input && this.failure == failure && pos == 0
    {
      this.input := input;
      this.failure := failure;
      pos := 0;
    }

    /** One `ReadByte`: the next byte and a nil error, or, once the input is
        used up, a zero byte and the stream's terminating error (again on
        every later call). */
    method ReadByte() returns (b: byte, err: ReadErr)
      requires Valid()
      modifies this`pos
      ensures Valid()
      ensures old(pos) < |input| ==> b == input[old(pos)] && err == NoErr && pos == old(pos) + 1
      ensures old(pos) == |input| ==>
        b == 0 && err == (if failure then IoError else EndOfFile) && pos == old(pos)
    {
      if pos < |input| {
        b, err := input[pos], NoErr;
        pos := pos + 1;
      } else {
        b, err := 0, if failure then IoError else EndOfFile;
      }
    }
  }
}
