/**
 * The duplicate finder: it selects and groups the enumerated files, compares
 * the members of every group of two or more pairwise (boundary bytes, then
 * a digest of what is left of each stream) and collects the later copies.
 */
module DFind {
  import opened SystemIO
  import opened Boundary
  import opened Grouping
  import opened Detection

  /** The part of a finder's state that the command-line flags set. */
  datatype Settings = Settings(recursive: SearchOption, pattern: seq<string>, verbal: bool)

  /**
   * What Process writes: one line per duplicate, and the count when the
   * finder is verbose.
   */
  datatype Report = Report(duplicates: seq<FileRec>, summary: Option<nat>)

  /** Some recorded comparison had `x` as its B and found a match. */
  ghost predicate Witnessed(comparisons: seq<(FileRec, FileRec)>, x: FileRec) {
    exists p :: p in comparisons && p.1 == x && Matches(p.0, x)
  }

  lemma WitnessedAppend(c1: seq<(FileRec, FileRec)>, c2: seq<(FileRec, FileRec)>, x: FileRec)
    requires Witnessed(c1, x) || Witnessed(c2, x)
    ensures Witnessed(c1 + c2, x)
  {
    var p :| (p in c1 || p in c2) && p.1 == x && Matches(p.0, x);
    assert p in c1 + c2;
  }

  class DuplicateFinder {
    var recursive: SearchOption
    var pattern: seq<string>
    var verbal: bool
    var fileSizeGroups: seq<SizeGroup>
    const location: string

    constructor(location: string)
      ensures this.location == location && fileSizeGroups == []
      ensures CurrentSettings() == Settings(TopDirectoryOnly, [], false)
    {
      this.location := location;
      recursive := TopDirectoryOnly;
      verbal := false;
      pattern := [];
      fileSizeGroups := [];
    }

    constructor WithPattern(location: string, pattern: seq<string>)
      ensures this.location == location && fileSizeGroups == []
      ensures CurrentSettings() == Settings(TopDirectoryOnly, pattern, false)
    {
      this.location := location;
      recursive := TopDirectoryOnly;
      verbal := false;
      this.pattern := pattern;
      fileSizeGroups := [];
    }

    function CurrentSettings(): Settings
      reads this
    {
      Settings(recursive, pattern, verbal)
    }

    /**
     * Enumerates the location (the walk itself is the `enumerate`
     * parameter) and groups the files that pass the extension filter by
     * length.
     */
    method GetFiles(enumerate: (string, SearchOption) -> seq<FileRec>)
      modifies this`fileSizeGroups
      ensures fileSizeGroups == SizeGroupsOf(enumerate(location, recursive), pattern)
    {
      var files := enumerate(location, recursive);
      if |pattern| > 0 {
        fileSizeGroups := GroupByLength(WithExtensionIn(files, pattern));
      } else {
        fileSizeGroups := GroupByLength(files);
      }
    }

    /**
     * Compares every file of one size group that is not yet a duplicate
     * (A) with every other file not yet used as an A (B), and adds each B
     * that compares equal to the shared bag. Returns, as ghosts, what it
     * added and the (A, B) pairs it compared.
     */
    method HandleGroup(group: SizeGroup, duplicates: FileBag, digest: seq<byte> -> seq<byte>)
      returns (ghost added: seq<FileRec>, ghost comparisons: seq<(FileRec, FileRec)>)
      requires Distinct(group.members)
      requires forall x :: x in group.members ==> x.Length() == group.key
      requires forall x :: x in group.members ==> x !in duplicates.items
      modifies duplicates
      ensures duplicates.items == old(duplicates.items) + added
      ensures Distinct(added)
      ensures forall x :: x in added <==> IsDuplicateIn(group.members, x)
      ensures |group.members| > 0 ==> group.members[0] !in added
      ensures forall p :: p in comparisons ==>
        p.0 != p.1 && p.0 in group.members && p.1 in group.members && p.0 !in duplicates.items
      ensures forall x :: x in added ==> Witnessed(comparisons, x)
    {
      var g := group.members;
      var n := |g|;
      ghost var before := duplicates.items;
      added, comparisons := [], [];
      var compared: seq<FileRec> := [];
      var i := 0;
      while i < n
        invariant 0 <= i <= n
        invariant duplicates.items == before + added
        invariant Distinct(added)
        invariant forall x :: x in added ==> x in g
        invariant FlaggedExactly(g, i, added)
        invariant forall x :: x in compared ==> x in g
        invariant SourcesExactly(g, i, compared)
        invariant forall p :: p in comparisons ==> p.0 != p.1 && p.0 in compared && p.1 in g
        invariant forall x :: x in added ==> Witnessed(comparisons, x)
      {
        var a := g[i];
        if !duplicates.Contains(a) {
          ghost var newly, pairs := CompareWithRest(g, i, compared, duplicates, digest);
          FlaggedRound(g, i, added, newly);
          SourcesRound(g, i, compared);
          forall x | x in added + newly ensures Witnessed(comparisons + pairs, x) {
            WitnessedAppend(comparisons, pairs, x);
          }
          DistinctConcat(added, newly);
          added, comparisons := added + newly, comparisons + pairs;
          compared := compared + [a];
        } else {
          FlaggedSkip(g, i, added);
          SourcesSkip(g, i, compared);
        }
        i := i + 1;
      }
      FlaggedAllRounds(g, added);
    }

    /**
     * The inner loop of HandleGroup for the source A = g[i], a file with
     * no earlier match: every other file B not yet used as a source is
     * compared with A and added to the bag when they match. Of the group,
     * the bag then holds exactly the files flagged so far and those after
     * A that match it.
     */
    static method CompareWithRest(g: seq<FileRec>, i: nat, compared: seq<FileRec>,
                                  duplicates: FileBag, digest: seq<byte> -> seq<byte>)
      returns (ghost added: seq<FileRec>, ghost pairs: seq<(FileRec, FileRec)>)
      requires Distinct(g) && i < |g|
      requires forall x :: x in g ==> x.Length() == g[i].Length()
      requires SourcesExactly(g, i, compared)
      requires FlaggedExactly(g, i, duplicates.items)
      requires !duplicates.Contains(g[i])
      modifies duplicates
      ensures duplicates.items == old(duplicates.items) + added
      ensures Distinct(added)
      ensures forall x :: x in added ==> x in g && x !in old(duplicates.items)
      ensures forall k :: 0 <= k < |g| ==> (g[k] in added <==> i < k && Matches(g[i], g[k]) && !FlaggedBefore(g, i, k))
      ensures forall p :: p in pairs ==> p.0 == g[i] && p.1 != g[i] && p.1 in g
      ensures forall x :: x in added ==> Witnessed(pairs, x)
    {
      var a := g[i];
      ghost var before := duplicates.items;
      added, pairs := [], [];
      var n := |g|;
      var j := 0;
      while j < n
        invariant 0 <= j <= n
        invariant duplicates.items == before + added
        invariant Distinct(added)
        invariant forall x :: x in added ==> x in g && x !in before
        invariant forall k :: 0 <= k < n ==> (g[k] in added <==> i < k < j && Matches(a, g[k]) && !FlaggedBefore(g, i, k))
        invariant forall p :: p in pairs ==> p.0 == a && p.1 != a && p.1 in g
        invariant forall x :: x in added ==> Witnessed(pairs, x)
      {
        var b := g[j];
        if b != a && !(b in compared) {
          var result;
          ghost var hashed;
          result, hashed := Compare(a, b, digest);
          if j < i || FlaggedBefore(g, i, j) {
            OriginalMatchesNothingFlagged(g, i, j);
          }
          forall x | x in added || (x == b && result) ensures Witnessed(pairs + [(a, b)], x) {
            assert (a, b) in [(a, b)];
            WitnessedAppend(pairs, [(a, b)], x);
          }
          pairs := pairs + [(a, b)];
          if result {
            duplicates.Add(b);
            added := added + [b];
          }
        }
        j := j + 1;
      }
    }

    /**
     * Digests what is left of each stream and compares the digests; the
     * digest function is a parameter of the model.
     */
    static method CompareHash(A: FileStream, B: FileStream, digest: seq<byte> -> seq<byte>) returns (r: bool)
      requires A != B
      modifies A, B
      ensures r == (digest(old(A.Remaining())) == digest(old(B.Remaining())))
      ensures A.position == Max(old(A.position), |A.data|) && B.position == Max(old(B.position), |B.data|)
    {
      var hashA := ComputeHash(A, digest);
      var hashB := ComputeHash(B, digest);
      if |hashA| != |hashB| {
        return false;
      }
      return hashA == hashB;
    }

    /**
     * Opens both files, rejects them when the boundary bytes differ and
     * otherwise compares digests. `hashed` records whether the digest stage
     * ran.
     */
    static method Compare(A: FileRec, B: FileRec, digest: seq<byte> -> seq<byte>) returns (r: bool, ghost hashed: bool)
      requires A.Length() == B.Length()
      ensures r == BoundaryEqual(A.content, B.content)
      ensures hashed == BoundaryEqual(A.content, B.content)
    {
      var fsA := new FileStream.OpenRead(A);
      var fsB := new FileStream.OpenRead(B);
      hashed := false;
      var boundary := CompareStartEndBytes(fsA, fsB);
      if !boundary {
        return false, hashed;
      }
      hashed := true;
      assert fsA.Remaining() == [] && fsB.Remaining() == [];
      var sameHash := CompareHash(fsA, fsB, digest);
      if !sameHash {
        return false, hashed;
      }
      return true, hashed;
    }

    /**
     * Reads the first chunk of both streams (the whole file below one
     * chunk) into pooled buffers and compares them through spans; for a
     * file of at least one chunk it then moves both streams to the last
     * chunk, refills the same buffers and compares through the same spans,
     * which now show the last chunks.
     */
    static method CompareStartEndBytes(A: FileStream, B: FileStream) returns (r: bool)
      requires A != B
      requires A.Length() == B.Length()
      requires A.position == 0 && B.position == 0
      modifies A, B
      ensures r == BoundaryEqual(A.data, B.data)
      ensures FirstChunk(A.data) != FirstChunk(B.data) ==>
        A.position == B.position == |FirstChunk(A.data)|
      ensures FirstChunk(A.data) == FirstChunk(B.data) ==>
        A.position == A.Length() && B.position == B.Length()
    {
      var bufsize := ChunkSize;
      var skipEndChunks := false;
      if A.Length() < bufsize {
        skipEndChunks := true;
        bufsize := A.Length();
      }

      var bufferA := Rent(bufsize);
      var bufferB := Rent(bufsize);

      var _ := A.Read(bufferA, 0, bufsize);
      var _ := B.Read(bufferB, 0, bufsize);

      var startSpanA := Span(bufferA, 0, bufsize);
      var startSpanB := Span(bufferB, 0, bufsize);
      assert startSpanA.View() == FirstChunk(A.data) && startSpanB.View() == FirstChunk(B.data);

      if !SequenceEqual(startSpanA, startSpanB) {
        return false;
      }

      if skipEndChunks {
        assert A.data[..bufsize] == A.data && B.data[..bufsize] == B.data;
        return true;
      }

      A.position := A.Length() - bufsize;
      B.position := B.Length() - bufsize;

      Clear(bufferA);
      Clear(bufferB);

      var _ := A.Read(bufferA, 0, bufsize);
      var _ := B.Read(bufferB, 0, bufsize);

      assert !startSpanA.IsEmpty();
      assert startSpanA.View() == A.data[A.Length() - ChunkSize..];
      assert startSpanB.View() == B.data[B.Length() - ChunkSize..];

      if !SequenceEqual(startSpanA, startSpanB) {
        return false;
      }
      return true;
    }

    /**
     * Groups the files, runs HandleGroup on every group with at least two
     * members (one after the other; the groups share no file) and reports
     * the bag's contents, with their count when verbose.
     */
    method Process(enumerate: (string, SearchOption) -> seq<FileRec>, digest: seq<byte> -> seq<byte>)
      returns (report: Report, ghost comparisons: seq<(FileRec, FileRec)>)
      requires Distinct(enumerate(location, recursive))
      modifies this`fileSizeGroups
      ensures fileSizeGroups == SizeGroupsOf(enumerate(location, recursive), pattern)
      ensures Distinct(report.duplicates)
      ensures forall x :: x in report.duplicates <==>
        IsDuplicateIn(Selected(enumerate(location, recursive), pattern), x)
      ensures report.summary == if verbal then Some(|report.duplicates|) else None
      ensures forall p :: p in comparisons ==>
        p.0 != p.1 && p.0.Length() == p.1.Length() &&
        p.0 in Selected(enumerate(location, recursive), pattern) &&
        p.1 in Selected(enumerate(location, recursive), pattern)
    {
      GetFiles(enumerate);
      ghost var fs := Selected(enumerate(location, recursive), pattern);
      assert Distinct(fs);
      var groups := fileSizeGroups;
      var duplicates := new FileBag();
      comparisons := [];
      var t := 0;
      while t < |groups|
        invariant 0 <= t <= |groups|
        invariant groups == GroupByLength(fs) && fileSizeGroups == groups
        invariant Distinct(duplicates.items)
        invariant forall x :: x in duplicates.items <==> x.Length() in Keys(groups[..t]) && IsDuplicateIn(fs, x)
        invariant forall p :: p in comparisons ==>
          p.0 != p.1 && p.0.Length() == p.1.Length() && p.0 in fs && p.1 in fs
      {
        var group := groups[t];
        GroupIsAllFilesOfItsLength(fs, t);
        assert Keys(groups[..t + 1]) == Keys(groups[..t]) + {group.key} by {
          assert groups[..t + 1] == groups[..t] + [group];
        }
        forall x | x in group.members ensures x !in duplicates.items {
          if x in duplicates.items {
            assert false;
          }
        }
        if |group.members| > 1 {
          ghost var before := duplicates.items;
          ghost var added, pairs := HandleGroup(group, duplicates, digest);
          forall x ensures x in added <==> x.Length() == group.key && IsDuplicateIn(fs, x) {
            GroupAgreesWithWhole(fs, x);
          }
          DistinctConcat(before, added);
          comparisons := comparisons + pairs;
        } else {
          forall x: FileRec | x.Length() == group.key ensures !IsDuplicateIn(fs, x) {
            GroupAgreesWithWhole(fs, x);
          }
        }
        t := t + 1;
      }
      assert groups[..t] == groups;
      report := Report(duplicates.items, if verbal then Some(|duplicates.items|) else None);
    }
  }
}
