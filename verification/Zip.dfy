/** The byte-pair codec: files are copied in blocks of 1024 bytes with the two bytes of every pair swapped. */
module Zip {
  type Byte = bv8

  const FILE_BLOCK: nat := 1024

  datatype ZipStatus = Ok | SameSrcDst | FileNotExists

  /** The whole file with the bytes of every pair swapped; an odd last byte stays where it is. */
  function Swapped(s: seq<Byte>): (r: seq<Byte>)
    ensures |r| == |s|
  {
    seq(|s|, i requires 0 <= i < |s| => if i % 2 == 1 then s[i - 1] else if i + 1 < |s| then s[i + 1] else s[i])
  }

  /** A file opened for reading. */
  class Source {
    const data: seq<Byte>
    var pos: nat

    constructor (data: seq<Byte>)
      ensures this.data == data && pos == 0
    {
      this.data := data;
      pos := 0;
    }

    /** fread: a full block unless the file ends first. */
    method Fread(buf: array<Byte>) returns (n: nat)
      requires pos <= |data|
      modifies this, buf
      ensures n == (if |data| - old(pos) < buf.Length then |data| - old(pos) else buf.Length)
      ensures pos == old(pos) + n && buf[..n] == data[old(pos)..pos]
    {
      n := if |data| - pos < buf.Length then |data| - pos else buf.Length;
      forall k | 0 <= k < n {
        buf[k] := data[pos + k];
      }
      pos := pos + n;
    }

    method Rewind()
      modifies this
      ensures pos == 0
    {
      pos := 0;
    }
  }

  /** A file opened for writing. */
  class Sink {
    var data: seq<Byte>

    constructor ()
      ensures data == []
    {
      data := [];
    }

    method Fwrite(buf: array<Byte>, n: nat)
      requires n <= buf.Length
      modifies this
      ensures data == old(data) + buf[..n]
    {
      data := data + buf[..n];
    }
  }

  /** The first read loop of ZipCompress: it only counts. */
  method CountBytes(source: Source, buf: array<Byte>) returns (total: nat)
    requires source.pos == 0 && buf.Length == FILE_BLOCK
    modifies source, buf
    ensures total == |source.data| && source.pos == 0
  {
    total := 0;
    var n := source.Fread(buf);
    while n != 0
      invariant source.pos == total + n <= |source.data|
      invariant n == 0 ==> source.pos == |source.data|
      decreases |source.data| - total, n
    {
      total := total + n;
      n := source.Fread(buf);
    }
    source.Rewind();
  }

  /** One block: the pairs among its first `n` bytes. */
  method SwapBlock(normal: array<Byte>, reversed: array<Byte>, n: nat)
    requires normal != reversed && n <= normal.Length == reversed.Length && n % 2 == 0
    modifies reversed
    ensures reversed[..n] == Swapped(normal[..n])
  {
    var i := 0;
    while i < n / 2
      invariant 0 <= i <= n / 2
      invariant forall k :: 0 <= k < 2 * i ==> reversed[k] == if k % 2 == 1 then normal[k - 1] else normal[k + 1]
    {
      reversed[2 * i] := normal[2 * i + 1];
      reversed[2 * i + 1] := normal[2 * i];
      i := i + 1;
    }
  }

  /** Swapping goes block by block: an even block at an even offset is a piece of the whole. */
  lemma SwappedBlock(s: seq<Byte>, a: nat, b: nat)
    requires a <= b <= |s| && a % 2 == 0 && (b - a) % 2 == 0
    ensures Swapped(s[a..b]) == Swapped(s)[a..b]
  {
    forall k | 0 <= k < b - a
      ensures Swapped(s[a..b])[k] == Swapped(s)[a..b][k]
    {
      SwappedPair(s, a, b, k);
    }
  }

  lemma SwappedPair(s: seq<Byte>, a: nat, b: nat, k: nat)
    requires a <= b <= |s| && a % 2 == 0 && (b - a) % 2 == 0 && k < b - a
    ensures Swapped(s[a..b])[k] == Swapped(s)[a + k]
  {
    EvenPlus(a, k);
    Inside(b - a, k);
  }

  lemma EvenPlus(a: nat, k: nat)
    requires a % 2 == 0
    ensures (a + k) % 2 == k % 2
  {
  }

  lemma Inside(n: nat, k: nat)
    requires n % 2 == 0 && k < n
    ensures k % 2 == 0 ==> k + 1 < n
    ensures k % 2 == 1 ==> k >= 1
  {
  }

  /** The pairs that are complete after `n` bytes. */
  function Even(n: nat): (r: nat)
    ensures r <= n <= r + 1 && r % 2 == 0
  {
    n - n % 2
  }

  /** One turn of the block loop: the block that was read at `start` is written, all but an odd last byte. */
  method WriteBlock(dest: Sink, normal: array<Byte>, reversed: array<Byte>, oddChar: array<Byte>, n: nat,
                    isOdd: bool, atEnd: bool, ghost s: seq<Byte>, ghost start: nat)
    requires normal != reversed && normal != oddChar && reversed != oddChar
    requires n <= normal.Length == reversed.Length && oddChar.Length == 2
    requires start % 2 == 0 && start + n <= |s| && normal[..n] == s[start..start + n]
    requires isOdd == (|s| % 2 == 1) && atEnd == (start + n == |s|) && (!atEnd ==> n % 2 == 0)
    requires dest.data == Swapped(s)[..start]
    modifies dest, reversed, oddChar
    ensures dest.data == Swapped(s)[..Even(start + n)]
    ensures n % 2 == 1 ==> oddChar[0] == s[|s| - 1]
  {
    var size := n;
    if isOdd && atEnd && size % 2 == 1 {
      oddChar[0], oddChar[1] := normal[size - 1], 0;
      assert normal[..n][n - 1] == s[|s| - 1];
      size := size - 1;
    }
    SwapBlock(normal, reversed, size);
    assert normal[..size] == s[start..start + size];
    SwappedBlock(s, start, start + size);
    dest.Fwrite(reversed, size);
  }

  /** What one read delivers after `total` bytes. */
  function Chunk(size: nat, total: nat): nat
    requires total <= size
  {
    if size - total < FILE_BLOCK then size - total else FILE_BLOCK
  }

  /** Every block but the last is full, so blocks start at even places. */
  predicate AtBlock(size: nat, total: nat) {
    total <= size && (total % 2 == 0 || total == size)
  }

  lemma BlockNext(size: nat, total: nat, n: nat)
    requires AtBlock(size, total) && n == Chunk(size, total) && n != 0
    ensures total % 2 == 0 && total + n <= size && (total + n != size ==> n % 2 == 0) && AtBlock(size, total + n)
  {
  }

  lemma AllSwapped(s: seq<Byte>, out: seq<Byte>, last: Byte)
    requires out == Swapped(s)[..Even(|s|)] && (|s| % 2 == 1 ==> last == s[|s| - 1])
    ensures (if |s| % 2 == 1 then out + [last] else out) == Swapped(s)
  {
  }

  /** The block loop, the same in both directions. */
  method SwapBlocks(source: Source, dest: Sink, normal: array<Byte>, reversed: array<Byte>, sizeTotal: nat)
    requires source.pos == 0 && sizeTotal == |source.data| && dest.data == []
    requires normal != reversed && normal.Length == reversed.Length == FILE_BLOCK
    modifies source, dest, normal, reversed
    ensures dest.data == Swapped(source.data)
  {
    var isOdd := sizeTotal % 2 == 1;
    var oddChar := new Byte[2];
    ghost var s := source.data;
    var sizeReadTotal: nat := 0;
    var sizeRead: nat := source.Fread(normal);
    while sizeRead != 0
      invariant source.pos == sizeReadTotal + sizeRead <= |s| && source.data == s
      invariant AtBlock(|s|, sizeReadTotal) && sizeRead == Chunk(|s|, sizeReadTotal)
      invariant normal[..sizeRead] == s[sizeReadTotal..source.pos]
      invariant dest.data == Swapped(s)[..Even(sizeReadTotal)]
      invariant sizeReadTotal % 2 == 1 ==> oddChar[0] == s[|s| - 1]
      decreases |s| - sizeReadTotal
    {
      ghost var start := sizeReadTotal;
      BlockNext(|s|, start, sizeRead);
      sizeReadTotal := sizeReadTotal + sizeRead;
      WriteBlock(dest, normal, reversed, oddChar, sizeRead, isOdd, sizeReadTotal == sizeTotal, s, start);
      sizeRead := source.Fread(normal);
    }
    AllSwapped(s, dest.data, oddChar[0]);
    if isOdd {
      dest.Fwrite(oddChar, 1);
    }
  }

  /** The file system, as far as the codec sees it. */
  class Disk {
    var files: map<string, seq<Byte>>

    constructor (files: map<string, seq<Byte>>)
      ensures this.files == files
    {
      this.files := files;
    }

    method ZipUncompress(sourceName: string, destinationName: string) returns (status: ZipStatus)
      modifies this
      ensures (status, files) == Outcome(old(files), sourceName, destinationName)
    {
      if sourceName == destinationName {
        return SameSrcDst;
      }
      if sourceName !in files {
        return FileNotExists;
      }
      var source := new Source(files[sourceName]);
      var dest := new Sink();
      var normal, reversed := new Byte[1024], new Byte[1024];
      SwapBlocks(source, dest, normal, reversed, |files[sourceName]|);
      files := files[destinationName := dest.data];
      return Ok;
    }

    method ZipCompress(sourceName: string, destinationName: string) returns (status: ZipStatus)
      modifies this
      ensures (status, files) == Outcome(old(files), sourceName, destinationName)
    {
      if sourceName == destinationName {
        status := SameSrcDst;
      } else if sourceName in files {
        var source := new Source(files[sourceName]);
        var dest := new Sink();
        var normal, reversed := new Byte[FILE_BLOCK], new Byte[FILE_BLOCK];
        var sizeTotal := CountBytes(source, normal);
        SwapBlocks(source, dest, normal, reversed, sizeTotal);
        files := files[destinationName := dest.data];
        status := Ok;
      } else {
        status := FileNotExists;
      }
    }
  }

  /** What either call answers and leaves on the disk. */
  function Outcome(files: map<string, seq<Byte>>, src: string, dst: string): (ZipStatus, map<string, seq<Byte>>) {
    if src == dst then (SameSrcDst, files)
    else if src !in files then (FileNotExists, files)
    else (Ok, files[dst := Swapped(files[src])])
  }

  /** The first two bytes change places, and what follows is swapped on its own. */
  lemma FirstPair(a: Byte, b: Byte, rest: seq<Byte>)
    ensures Swapped([a, b] + rest) == [b, a] + Swapped(rest)
  {
    var s, t := [a, b] + rest, [b, a] + Swapped(rest);
    forall k | 0 <= k < |s|
      ensures Swapped(s)[k] == t[k]
    {
      if k >= 2 {
        assert s[k] == rest[k - 2] && (k + 1 < |s| ==> s[k + 1] == rest[k - 1]) && (k > 2 ==> s[k - 1] == rest[k - 3]);
      }
    }
  }

  /** A single byte and no byte stay as they are: with FirstPair this fixes the swap of every file. */
  lemma OddByte(s: seq<Byte>)
    requires |s| <= 1
    ensures Swapped(s) == s
  {
  }

  lemma SwappedTwice(s: seq<Byte>)
    ensures Swapped(Swapped(s)) == s
  {
    forall k | 0 <= k < |s|
      ensures Swapped(Swapped(s))[k] == s[k]
    {
      var r := Swapped(s);
      assert k % 2 == 1 ==> r[k - 1] == s[k];
      assert k % 2 == 0 && k + 1 < |s| ==> r[k + 1] == s[k];
    }
  }

  /** Uncompressing what was compressed gives the file back, whatever it holds and wherever the two
      results go, and leaves every other file alone. */
  lemma RoundTrip(files: map<string, seq<Byte>>, a: string, b: string, c: string)
    requires a in files && a != b && b != c
    ensures var packed := Outcome(files, a, b); var unpacked := Outcome(packed.1, b, c);
      && packed.0 == unpacked.0 == Ok
      && unpacked.1 == files[b := Swapped(files[a])][c := files[a]]
      && (a == c ==> unpacked.1[a] == files[a])
  {
    SwappedTwice(files[a]);
  }
}
