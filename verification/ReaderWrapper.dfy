// readerWrapper.Read of api/pkg/utils/obs/trait.go: a reader cut off after totalCount bytes.
module ReaderWrapper {

  type Bytes = seq<int>

  datatype Err = Nil | Eof | Other

  /** The wrapped reader: delivers the stream in pieces of its choice and fails when it likes. */
  class Reader {
    const stream: Bytes
    var pos: nat
    ghost var answer: Err

    constructor (stream: Bytes)
      ensures this.stream == stream && pos == 0
    {
      this.stream, pos, answer := stream, 0, Nil;
    }

    method Read(bufLen: nat) returns (data: Bytes, err: Err)
      requires pos <= |stream|
      modifies this
      ensures pos <= |stream| && |data| <= bufLen
      ensures pos == old(pos) + |data| && data == stream[old(pos)..pos] && answer == err
    {
      var n: nat :| n <= bufLen && pos + n <= |stream|;
      data := stream[pos..pos + n];
      pos := pos + n;
      err := *;
      answer := err;
    }
  }

  class Wrapper {
    const reader: Reader
    const totalCount: int
    var readedCount: int
    ghost var output: Bytes

    /** The bytes given out so far are a prefix of the stream, never more than the limit; a negative
        limit stands for none. */
    ghost predicate Valid()
      reads this, reader
    {
      && reader.pos <= |reader.stream| && output <= reader.stream
      && (totalCount < 0 ==> readedCount == 0 && |output| == reader.pos)
      && (totalCount >= 0 ==> readedCount == |output| == if reader.pos < totalCount then reader.pos else totalCount)
    }

    constructor (reader: Reader, totalCount: int)
      requires reader.pos == 0
      ensures Valid() && this.reader == reader && this.totalCount == totalCount && output == []
    {
      this.reader, this.totalCount, readedCount, output := reader, totalCount, 0, [];
    }

    lemma PrefixGrows(stream: Bytes, output: Bytes, data: Bytes)
      requires output <= stream && |output| + |data| <= |stream|
      requires data == stream[|output|..|output| + |data|] || data == []
      ensures output + data <= stream
    {
      assert output + stream[|output|..|output| + |data|] == stream[..|output| + |data|];
    }

    /** One call: what it returns continues the prefix; the call that fills it up and every later one
        report the end, the calls before pass on the reader's answer, and nothing the reader delivers
        below the limit is withheld (Valid). */
    method Read(bufLen: nat) returns (data: Bytes, err: Err)
      requires Valid()
      modifies this, reader
      ensures Valid() && output == old(output) + data && |data| <= bufLen
      ensures totalCount >= 0 ==> |output| <= totalCount && (|output| == totalCount ==> err == Eof)
      ensures totalCount < 0 || |output| < totalCount ==> err == reader.answer && reader.pos == |output|
      ensures totalCount >= 0 && |old(output)| == totalCount ==> data == [] && err == Eof
      ensures totalCount == 0 ==> reader.pos == old(reader.pos)
    {
      if totalCount == 0 {
        return [], Eof;
      }
      var p, e := reader.Read(bufLen);
      data, err := p, e;
      if totalCount > 0 {
        var readedOnce := |p|;
        var remainCount := totalCount - readedCount;
        if remainCount > readedOnce {
          readedCount := readedCount + readedOnce;
        } else {
          readedCount := readedCount + remainCount;
          data, err := p[..remainCount], Eof;
        }
      }
      PrefixGrows(reader.stream, output, data);
      output := output + data;
    }
  }
}
