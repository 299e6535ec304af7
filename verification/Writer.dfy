/** The buffered writer: text is collected in a fixed buffer, converted to the output encoding in
    chunks that never split a character, and handed to a sink. */
module Writer {
  import opened Utf8
  import Encodings

  // bufcapacity: a stack buffer of 10240 bytes shared with a scratch of four bytes a character
  const CAPACITY: nat := 2048

  /** The xml_writer behind the buffer. */
  class Sink {
    var data: seq<Byte>

    method Write(bytes: seq<Byte>)
      modifies this
      ensures data == old(data) + bytes
    {
      data := data + bytes;
    }
  }

  /** Where get_valid_length cuts: before the last byte that starts a character, among the last four. */
  function ValidLength(s: seq<Byte>): (n: nat)
    ensures n <= |s| && (|s| >= 5 ==> n > 0)
  {
    var k := |s|;
    if k < 5 then 0
    else if !Continues(s[k - 1]) then k - 1
    else if !Continues(s[k - 2]) then k - 2
    else if !Continues(s[k - 3]) then k - 3
    else if !Continues(s[k - 4]) then k - 4
    else k
  }

  /** The cut is before a byte that starts a character: four continuation bytes in a row are impossible. */
  lemma CutStarts(s: seq<Byte>, t: seq<Byte>)
    requires WellFormed(t) && |s| <= |t| && s == t[..|s|]
    ensures ValidLength(s) == 0 || (ValidLength(s) < |s| && !Continues(t[ValidLength(s)]))
  {
    var k := |s|;
    if k >= 5 && ValidLength(s) == k {
      AtMostThree(t, k - 4);
    }
  }

  /** A piece of well-formed text is cut between two characters. */
  lemma CutsWell(s: seq<Byte>, rest: seq<Byte>)
    requires WellFormed(s + rest)
    ensures WellFormed(s[..ValidLength(s)]) && WellFormed(s[ValidLength(s)..] + rest)
  {
    var t := s + rest;
    var n := ValidLength(s);
    CutStarts(s, t);
    if n > 0 {
      CutsAt(t, n);
    }
    assert t[..n] == s[..n];
    assert t[n..] == s[n..] + rest;
  }

  method GetValidLength(s: seq<Byte>) returns (n: nat)
    ensures n == ValidLength(s)
  {
    if |s| < 5 {
      return 0;
    }
    var i := 1;
    while i <= 4
      invariant 1 <= i <= 5
      invariant forall k :: |s| - i < k < |s| ==> Continues(s[k])
    {
      if !Continues(s[|s| - i]) {
        return |s| - i;
      }
      i := i + 1;
    }
    return |s|;
  }

  /** After `text` was written, the sink holds `out` and the buffer `held`: together they make up the
      conversion of the text. This holds always in UTF-8, and for well-formed writes in other encodings. */
  ghost predicate Carries(out: seq<Byte>, held: seq<Byte>, start: seq<Byte>, text: seq<Byte>, clean: bool, encoding: Encoding) {
    && (clean ==> WellFormed(text) && WellFormed(held))
    && (clean || encoding == Utf8 ==> out + Convert(held, encoding) == start + Convert(text, encoding))
  }

  lemma CarriesFlush(out: seq<Byte>, held: seq<Byte>, start: seq<Byte>, text: seq<Byte>, clean: bool, encoding: Encoding)
    requires Carries(out, held, start, text, clean, encoding)
    ensures Carries(out + Convert(held, encoding), [], start, text, clean, encoding)
  {
    assert Convert([], encoding) == [];
    assert out + Convert(held, encoding) + [] == out + Convert(held, encoding);
  }

  lemma CarriesJoin(out: seq<Byte>, held: seq<Byte>, start: seq<Byte>, text: seq<Byte>, clean: bool, encoding: Encoding, piece: seq<Byte>)
    requires Carries(out, held, start, text, clean, encoding)
    ensures Carries(out, held + piece, start, text + piece, clean && WellFormed(piece), encoding)
  {
    if clean && WellFormed(piece) {
      WellFormedJoins(text, piece);
      WellFormedJoins(held, piece);
    }
    if encoding == Utf8 || (clean && WellFormed(piece)) {
      ConvertJoins(text, piece, encoding);
      ConvertJoins(held, piece, encoding);
      Regroup(out, Convert(held, encoding), Convert(piece, encoding));
      Regroup(start, Convert(text, encoding), Convert(piece, encoding));
    }
  }

  /** A piece sent past the empty buffer. */
  lemma CarriesSend(out: seq<Byte>, start: seq<Byte>, text: seq<Byte>, clean: bool, encoding: Encoding, piece: seq<Byte>)
    requires Carries(out, [], start, text, clean, encoding)
    ensures Carries(out + Convert(piece, encoding), [], start, text + piece, clean && WellFormed(piece), encoding)
  {
    CarriesJoin(out, [], start, text, clean, encoding, piece);
    assert [] + piece == piece;
    CarriesFlush(out, piece, start, text + piece, clean && WellFormed(piece), encoding);
  }

  /** Cutting where get_valid_length says neither makes text well-formed nor spoils it. */
  lemma SplitsExactly(s: seq<Byte>, m: nat, k: nat)
    requires m <= |s| && k == ValidLength(s[..m])
    ensures WellFormed(s) <==> WellFormed(s[..k]) && WellFormed(s[k..])
  {
    assert s == s[..m] + s[m..];
    assert s[..m][..k] == s[..k];
    assert s[..m][k..] + s[m..] == s[k..];
    assert s[..k] + s[k..] == s;
    if WellFormed(s) {
      CutsWell(s[..m], s[m..]);
    } else if WellFormed(s[..k]) && WellFormed(s[k..]) {
      WellFormedJoins(s[..k], s[k..]);
    }
  }

  class BufferedWriter {
    const writer: Sink
    const encoding: Encoding
    const buffer: array<Byte>
    const scratch: array<Byte>
    var bufsize: nat
    /** Everything written so far, whether every write was well-formed, and what the sink held before. */
    ghost var text: seq<Byte>
    ghost var clean: bool
    ghost const start: seq<Byte>

    constructor (writer: Sink, encoding: Encoding)
      ensures Valid() && this.writer == writer && this.encoding == encoding && fresh(buffer) && fresh(scratch)
      ensures text == [] && clean && start == writer.data
    {
      this.writer, this.encoding := writer, encoding;
      buffer, scratch := new Byte[CAPACITY], new Byte[4 * CAPACITY];
      bufsize, text, clean, start := 0, [], true, writer.data;
    }

    ghost predicate Valid()
      reads this, writer, buffer, scratch
    {
      && buffer != scratch && buffer.Length == CAPACITY && scratch.Length == 4 * CAPACITY && bufsize <= CAPACITY
      && Carries(writer.data, buffer[..bufsize], start, text, clean, encoding)
    }

    method Put(size: nat, out: seq<Byte>)
      requires size + |out| <= scratch.Length
      modifies scratch
      ensures scratch[..size + |out|] == old(scratch[..size]) + out
    {
      forall k | 0 <= k < |out| {
        scratch[size + k] := out[k];
      }
    }

    /** One turn of the decoder with this encoding's writer. */
    method ConvertStep(data: seq<Byte>, i: nat, size: nat) returns (length: nat, more: nat)
      requires encoding != Utf8 && i < |data| && size <= 4 * i && 4 * |data| <= scratch.Length
      modifies scratch
      ensures 0 < length <= |data| - i && more <= 4 * length
      ensures scratch[..size + more] + Recode(data[i + length..], encoding) == old(scratch[..size]) + Recode(data[i..], encoding)
    {
      ghost var rest := data[i..];
      var c := Front(data[i..]);
      if c.Step? {
        var out := Emit(c, encoding);
        length, more := c.length, |out|;
        RecodeStep(rest, length, encoding);
        Regroup(scratch[..size], out, Recode(rest[length..], encoding));
        Put(size, out);
      } else {
        length, more := 1, 0;
        RecodeSkip(rest, encoding);
      }
      assert rest[length..] == data[i + length..];
    }

    /** convert_buffer_output: the chunk converted into the scratch buffer, which it never overruns. */
    method ConvertBufferOutput(data: seq<Byte>) returns (size: nat)
      requires encoding != Utf8 && scratch.Length == 4 * CAPACITY && |data| <= CAPACITY
      modifies scratch
      ensures size <= scratch.Length && scratch[..size] == Convert(data, encoding)
    {
      var i := 0;
      size := 0;
      assert data[0..] == data;
      assert [] + Recode(data, encoding) == Recode(data, encoding);
      while i < |data|
        invariant 0 <= i <= |data| && size <= 4 * i
        invariant scratch[..size] + Recode(data[i..], encoding) == Recode(data, encoding)
      {
        var length, more := ConvertStep(data, i, size);
        size := size + more;
        i := i + length;
      }
      assert data[i..] == [];
      assert scratch[..size] + [] == scratch[..size];
    }

    method FlushData(data: seq<Byte>)
      requires scratch.Length == 4 * CAPACITY && (|data| <= CAPACITY || encoding == Utf8)
      modifies writer, scratch
      ensures writer.data == old(writer.data) + Convert(data, encoding)
    {
      if |data| == 0 {
        return;
      }
      if encoding == Utf8 {
        writer.Write(data);
      } else {
        var size := ConvertBufferOutput(data);
        writer.Write(scratch[..size]);
      }
    }

    /** After a flush the sink holds the conversion of everything that was written. */
    method Flush()
      requires Valid()
      modifies this`bufsize, writer, scratch
      ensures Valid() && bufsize == 0
      ensures clean || encoding == Utf8 ==> writer.data == start + Convert(text, encoding)
      ensures clean && start == [] && encoding != Latin1 ==> Encodings.Decoded(writer.data, encoding) == Encodings.Codes(text)
    {
      CarriesFlush(writer.data, buffer[..bufsize], start, text, clean, encoding);
      FlushData(buffer[..bufsize]);
      bufsize := 0;
      assert buffer[..bufsize] == [];
      assert Convert([], encoding) == [];
      assert writer.data + [] == writer.data;
      ReadBack();
    }

    /** What the sink then holds is read back as what was written. */
    lemma ReadBack()
      requires Valid() && bufsize == 0 && (clean || encoding == Utf8 ==> writer.data == start + Convert(text, encoding))
      ensures clean && start == [] && encoding != Latin1 ==> Encodings.Decoded(writer.data, encoding) == Encodings.Codes(text)
    {
      if clean && start == [] && encoding != Latin1 {
        assert [] + Convert(text, encoding) == Convert(text, encoding);
        Encodings.ConvertRead(text, encoding);
      }
    }

    /** memcpy into the free part of the buffer. */
    method Store(data: seq<Byte>)
      requires bufsize + |data| <= buffer.Length
      modifies buffer, this`bufsize
      ensures bufsize == old(bufsize) + |data| && buffer[..bufsize] == old(buffer[..bufsize]) + data
    {
      forall k | 0 <= k < |data| {
        buffer[bufsize + k] := data[k];
      }
      bufsize := bufsize + |data|;
    }

    /** A piece that fits the buffer. */
    method Collect(data: seq<Byte>)
      requires Valid() && bufsize + |data| <= CAPACITY
      modifies this`bufsize, this`text, this`clean, buffer
      ensures Valid() && text == old(text) + data && clean == (old(clean) && WellFormed(data))
    {
      CarriesJoin(writer.data, buffer[..bufsize], start, text, clean, encoding, data);
      Store(data);
      text, clean := text + data, clean && WellFormed(data);
    }

    /** A piece that goes past the empty buffer. */
    method Send(data: seq<Byte>)
      requires Valid() && bufsize == 0 && (|data| <= CAPACITY || encoding == Utf8)
      modifies this`text, this`clean, writer, scratch
      ensures Valid() && text == old(text) + data && clean == (old(clean) && WellFormed(data))
    {
      assert buffer[..0] == [];
      CarriesSend(writer.data, start, text, clean, encoding, data);
      FlushData(data);
      text, clean := text + data, clean && WellFormed(data);
    }

    /** write_direct */
    method WriteDirect(data: seq<Byte>)
      requires Valid()
      modifies this`bufsize, this`text, this`clean, writer, buffer, scratch
      ensures Valid() && text == old(text) + data && clean == (old(clean) && WellFormed(data))
    {
      Flush();
      if |data| > CAPACITY && encoding == Utf8 {
        Send(data);
        return;
      }
      var rest := data;
      while |rest| > CAPACITY
        invariant Valid() && bufsize == 0
        invariant text + rest == old(text) + data
        invariant clean && WellFormed(rest) <==> old(clean) && WellFormed(data)
        decreases |rest|
      {
        var chunk := GetValidLength(rest[..CAPACITY]);
        SplitsExactly(rest, CAPACITY, chunk);
        Regroup(text, rest[..chunk], rest[chunk..]);
        assert rest[..chunk] + rest[chunk..] == rest;
        Send(rest[..chunk]);
        rest := rest[chunk..];
      }
      Collect(rest);
    }

    /** write_buffer */
    method WriteBuffer(data: seq<Byte>)
      requires Valid()
      modifies this`bufsize, this`text, this`clean, writer, buffer, scratch
      ensures Valid() && text == old(text) + data && clean == (old(clean) && WellFormed(data))
    {
      if bufsize + |data| <= CAPACITY {
        Collect(data);
      } else {
        WriteDirect(data);
      }
    }

    /** write_string: as much as fits goes into the buffer, up to the last whole character; the rest is
        written directly. */
    method WriteString(data: seq<Byte>)
      requires Valid()
      modifies this`bufsize, this`text, this`clean, writer, buffer, scratch
      ensures Valid() && text == old(text) + data && clean == (old(clean) && WellFormed(data))
    {
      var length := if |data| < CAPACITY - bufsize then |data| else CAPACITY - bufsize;
      if bufsize + length < CAPACITY {
        Collect(data);
        return;
      }
      var kept := GetValidLength(data[..length]);
      SplitsExactly(data, length, kept);
      Regroup(text, data[..kept], data[kept..]);
      assert data[..kept] + data[kept..] == data;
      Collect(data[..kept]);
      WriteDirect(data[kept..]);
    }

    /** write: up to six characters at once. */
    method Write(data: seq<Byte>)
      requires Valid() && 1 <= |data| <= 6
      modifies this`bufsize, this`text, this`clean, writer, buffer, scratch
      ensures Valid() && text == old(text) + data && clean == (old(clean) && WellFormed(data))
    {
      if bufsize > CAPACITY - |data| {
        Flush();
      }
      Collect(data);
    }
  }
}
