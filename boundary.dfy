/**
 * What the boundary-byte comparison decides about two equal-length files:
 * a file shorter than one chunk is compared whole; a longer one by its
 * first chunk and its last chunk, which overlap when the file is shorter
 * than two chunks and coincide when it is exactly one chunk long.
 */
module Boundary {
  import opened SystemIO

  /** The buffer size of CompareStartEndBytes (16 KiB). */
  const ChunkSize: nat := 16384

  /** The bytes the first read of the comparison sees. */
  function FirstChunk(a: seq<byte>): seq<byte> {
    a[..Min(|a|, ChunkSize)]
  }

  /** Whether byte `i` of an `n`-byte file lies in a chunk the comparison reads. */
  predicate InBoundary(n: nat, i: nat) {
    i < ChunkSize || n <= i + ChunkSize
  }

  /**
   * The outcome of the boundary comparison: whole contents below one chunk
   * (the test is strict), otherwise the first and the last ChunkSize bytes.
   */
  predicate BoundaryEqual(a: seq<byte>, b: seq<byte>)
    requires |a| == |b|
  {
    if |a| < ChunkSize then a == b
    else a[..ChunkSize] == b[..ChunkSize] && a[|a| - ChunkSize..] == b[|b| - ChunkSize..]
  }

  /** The comparison accepts exactly when the two files agree on every boundary byte. */
  lemma {:induction false} BoundaryEqualIffBoundaryBytesAgree(a: seq<byte>, b: seq<byte>)
    requires |a| == |b|
    ensures BoundaryEqual(a, b) <==> forall i :: 0 <= i < |a| && InBoundary(|a|, i) ==> a[i] == b[i]
  {
    var n := |a|;
    if n < ChunkSize {
      if forall i :: 0 <= i < n && InBoundary(n, i) ==> a[i] == b[i] {
        assert forall i :: 0 <= i < n ==> a[i] == b[i] by {
          forall i | 0 <= i < n ensures a[i] == b[i] {
            assert InBoundary(n, i);
          }
        }
        assert a == b;
      }
    } else {
      if BoundaryEqual(a, b) {
        forall i | 0 <= i < n && InBoundary(n, i) ensures a[i] == b[i] {
          if i < ChunkSize {
            assert a[..ChunkSize][i] == b[..ChunkSize][i];
          } else {
            assert a[n - ChunkSize..][i - (n - ChunkSize)] == b[n - ChunkSize..][i - (n - ChunkSize)];
          }
        }
      }
      if forall i :: 0 <= i < n && InBoundary(n, i) ==> a[i] == b[i] {
        assert a[..ChunkSize] == b[..ChunkSize] by {
          forall i | 0 <= i < ChunkSize ensures a[..ChunkSize][i] == b[..ChunkSize][i] {
            assert InBoundary(n, i);
          }
        }
        var endA, endB := a[n - ChunkSize..], b[n - ChunkSize..];
        assert endA == endB by {
          forall i | 0 <= i < ChunkSize ensures endA[i] == endB[i] {
            assert InBoundary(n, n - ChunkSize + i);
          }
        }
      }
    }
  }

  /** A difference in a boundary byte is always detected. */
  lemma BoundaryDifferenceDetected(a: seq<byte>, b: seq<byte>, i: nat)
    requires |a| == |b| && i < |a| && InBoundary(|a|, i)
    requires a[i] != b[i]
    ensures !BoundaryEqual(a, b)
  {
    BoundaryEqualIffBoundaryBytesAgree(a, b);
  }

  /** Bytes strictly between the two chunks never affect the outcome. */
  lemma MiddleBytesIgnored(a: seq<byte>, a': seq<byte>, b: seq<byte>)
    requires |a| == |a'| == |b|
    requires forall i :: 0 <= i < |a| && InBoundary(|a|, i) ==> a[i] == a'[i]
    ensures BoundaryEqual(a, b) == BoundaryEqual(a', b)
  {
    BoundaryEqualIffBoundaryBytesAgree(a, b);
    BoundaryEqualIffBoundaryBytesAgree(a', b);
  }

  /**
   * Two files that differ in one byte between the chunks (possible from a
   * length of 2 * ChunkSize + 1 on) are accepted.
   */
  lemma MiddleByteChangeAccepted(a: seq<byte>, i: nat, v: byte)
    requires ChunkSize <= i && i + ChunkSize < |a|
    requires v != a[i]
    ensures BoundaryEqual(a, a[i := v]) && a != a[i := v]
  {
    MiddleBytesIgnored(a[i := v], a, a[i := v]);
    assert a[i := v][i] != a[i];
  }

  /**
   * Up to one chunk (the exact chunk size included, where the end chunk
   * starts at offset 0) the comparison is whole-content equality.
   */
  lemma WithinOneChunkWholeContent(a: seq<byte>, b: seq<byte>)
    requires |a| == |b| <= ChunkSize
    ensures BoundaryEqual(a, b) <==> a == b
  {
    if |a| == ChunkSize {
      assert a[..ChunkSize] == a && b[..ChunkSize] == b;
    }
  }

  /** The comparison is an equivalence on files of one length. */
  lemma BoundaryEqualReflexive(a: seq<byte>)
    ensures BoundaryEqual(a, a)
  {
  }

  lemma BoundaryEqualSymmetric(a: seq<byte>, b: seq<byte>)
    requires |a| == |b|
    ensures BoundaryEqual(a, b) == BoundaryEqual(b, a)
  {
  }

  lemma BoundaryEqualTransitive(a: seq<byte>, b: seq<byte>, c: seq<byte>)
    requires |a| == |b| == |c|
    requires BoundaryEqual(a, b) && BoundaryEqual(b, c)
    ensures BoundaryEqual(a, c)
  {
  }
}
