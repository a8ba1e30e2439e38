/**
 * The pieces of the .NET runtime that the duplicate finder is built on,
 * reduced to what the finder relies on: bytes, the file descriptors the
 * enumerator yields, read-only file streams with a position, pooled byte
 * buffers, spans over them, the digest call and the result bag.
 */
module SystemIO {

  newtype byte = b: int | 0 <= b < 256

  datatype Option<T> = None | Some(value: T)

  function Min(a: int, b: int): int { if a < b then a else b }

  function Max(a: int, b: int): int { if a < b then b else a }

  /** Whether a sequence holds no element twice. */
  predicate Distinct<T(==)>(s: seq<T>) {
    forall p, q :: 0 <= p < q < |s| ==> s[p] != s[q]
  }

  /** Concatenation regroups freely. */
  lemma ConcatAssociative<T>(x: seq<T>, y: seq<T>, z: seq<T>)
    ensures (x + y) + z == x + (y + z)
  {
  }

  lemma DistinctConcat<T>(a: seq<T>, b: seq<T>)
    requires Distinct(a) && Distinct(b)
    requires forall x :: x in a ==> x !in b
    ensures Distinct(a + b)
  {
    forall p, q | 0 <= p < q < |a + b|
      ensures (a + b)[p] != (a + b)[q]
    {
      if q < |a| {
      } else if p >= |a| {
        assert (a + b)[p] == b[p - |a|] && (a + b)[q] == b[q - |a|];
      } else {
        assert (a + b)[p] in a && (a + b)[q] in b;
      }
    }
  }

  /** Recursion mode of the directory walk (System.IO.SearchOption). */
  datatype SearchOption = TopDirectoryOnly | AllDirectories

  /**
   * One enumerated file (System.IO.FileInfo): its full path, its extension
   * as .NET reports it (with the leading dot, possibly empty) and its bytes.
   * The length is that of the content.
   */
  datatype FileRec = FileRec(fullName: string, extension: string, content: seq<byte>)
  {
    function Length(): nat { |content| }
  }

  /** A read-only file stream (File.OpenRead): fixed content and a movable position. */
  class FileStream {
    const data: seq<byte>
    var position: nat

    constructor OpenRead(file: FileRec)
      ensures data == file.content && position == 0
    {
      data := file.content;
      position := 0;
    }

    function Length(): nat { |data| }

    /** The bytes from the current position to the end of the file. */
    function Remaining(): seq<byte>
      reads this
    {
      if position <= |data| then data[position..] else []
    }

    /**
     * Stream.Read: copies up to `count` bytes from the position into
     * `buffer[offset..]` and advances the position by the number copied,
     * which falls short of `count` only at the end of the file.
     */
    method Read(buffer: array<byte>, offset: nat, count: nat) returns (n: nat)
      requires offset + count <= buffer.Length
      modifies this, buffer
      ensures n == if old(position) < |data| then Min(count, |data| - old(position)) else 0
      ensures position == old(position) + n
      ensures n > 0 ==> buffer[offset..offset + n] == data[old(position)..old(position) + n]
      ensures forall k :: 0 <= k < buffer.Length && !(offset <= k < offset + n) ==> buffer[k] == old(buffer[k])
    {
      n := if position < |data| then Min(count, |data| - position) else 0;
      forall k | 0 <= k < n {
        buffer[offset + k] := data[position + k];
      }
      position := position + n;
    }
  }

  /**
   * HashAlgorithm.ComputeHash(Stream): digests the bytes from the stream's
   * current position to its end and leaves the stream at its end. The hash
   * function itself is a parameter of the model.
   */
  method ComputeHash(stream: FileStream, digest: seq<byte> -> seq<byte>) returns (hash: seq<byte>)
    modifies stream
    ensures hash == digest(old(stream.Remaining()))
    ensures stream.position == Max(old(stream.position), |stream.data|)
  {
    hash := digest(stream.Remaining());
    if stream.position < |stream.data| {
      stream.position := |stream.data|;
    }
  }

  /**
   * ArrayPool<byte>.Shared.Rent: an array of at least the requested length
   * that nothing else in the caller refers to.
   */
  method Rent(minimumLength: nat) returns (buffer: array<byte>)
    ensures fresh(buffer) && buffer.Length >= minimumLength
  {
    buffer := new byte[minimumLength];
  }

  /** Array.Clear: every element becomes zero. */
  method Clear(buffer: array<byte>)
    modifies buffer
    ensures forall k :: 0 <= k < buffer.Length ==> buffer[k] == 0
  {
    forall k | 0 <= k < buffer.Length {
      buffer[k] := 0;
    }
  }

  /**
   * Span<byte>: a window of `length` elements of `buffer` from `start`. It
   * holds no bytes of its own, so what it shows changes with the array.
   */
  datatype Span = Span(buffer: array<byte>, start: nat, length: nat)
  {
    ghost predicate Valid()
      reads buffer
    {
      start + length <= buffer.Length
    }

    function View(): (r: seq<byte>)
      reads buffer
      requires Valid()
      ensures |r| == length
      ensures forall k :: 0 <= k < length ==> r[k] == buffer[start + k]
    {
      buffer[start..start + length]
    }

    predicate IsEmpty() { length == 0 }
  }

  /** MemoryExtensions.SequenceEqual over two spans: equal length and equal elements. */
  function SequenceEqual(a: Span, b: Span): (r: bool)
    reads a.buffer, b.buffer
    requires a.Valid() && b.Valid()
    ensures r <==> (a.length == b.length &&
      forall k :: 0 <= k < a.length ==> a.View()[k] == b.View()[k])
  {
    a.View() == b.View()
  }

  /**
   * ConcurrentBag<FileInfo>: an unordered collection that admits repeats.
   * The model keeps insertion order; nothing in the finder depends on it.
   */
  class FileBag {
    var items: seq<FileRec>

    constructor()
      ensures items == []
    {
      items := [];
    }

    predicate Contains(x: FileRec): (r: bool)
      reads this
      ensures r <==> exists i :: 0 <= i < |items| && items[i] == x
    {
      x in items
    }

    method Add(x: FileRec)
      modifies this
      ensures items == old(items) + [x]
    {
      items := items + [x];
    }
  }
}
