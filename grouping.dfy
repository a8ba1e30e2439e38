/**
 * The size grouping of GetFiles: an optional extension filter followed by
 * a group-by on the file length. Groups come in the order in which their
 * length first occurs, and members keep the enumeration order, as LINQ's
 * `group by` does.
 */
module Grouping {
  import opened SystemIO

  /** The files whose extension is one of `pattern` (`Pattern.Contains(x.Extension)`). */
  function WithExtensionIn(files: seq<FileRec>, pattern: seq<string>): (r: seq<FileRec>)
    ensures forall f :: f in r <==> f in files && f.extension in pattern
    ensures Distinct(files) ==> Distinct(r)
  {
    if files == [] then []
    else
      var init, last := files[..|files| - 1], files[|files| - 1];
      assert files == init + [last];
      WithExtensionIn(init, pattern) + (if last.extension in pattern then [last] else [])
  }

  /** The files a run considers: all of them when the pattern list is empty. */
  function Selected(files: seq<FileRec>, pattern: seq<string>): seq<FileRec> {
    if |pattern| > 0 then WithExtensionIn(files, pattern) else files
  }

  /** The files of length `n`, in enumeration order. */
  function WithLength(files: seq<FileRec>, n: nat): (r: seq<FileRec>)
    ensures forall f :: f in r <==> f in files && f.Length() == n
    ensures Distinct(files) ==> Distinct(r)
  {
    if files == [] then []
    else
      var init, last := files[..|files| - 1], files[|files| - 1];
      assert files == init + [last];
      WithLength(init, n) + (if last.Length() == n then [last] else [])
  }

  /** Filtering a list with one more file at its end. */
  lemma WithExtensionInSnoc(files: seq<FileRec>, f: FileRec, pattern: seq<string>)
    ensures WithExtensionIn(files + [f], pattern) ==
      WithExtensionIn(files, pattern) + (if f.extension in pattern then [f] else [])
  {
    var t := files + [f];
    assert t[..|t| - 1] == files;
  }

  /**
   * The extension filter keeps order and repeats: filtering a concatenation
   * is concatenating the filtered parts.
   */
  lemma {:induction false} WithExtensionInDistributes(a: seq<FileRec>, b: seq<FileRec>, pattern: seq<string>)
    ensures WithExtensionIn(a + b, pattern) == WithExtensionIn(a, pattern) + WithExtensionIn(b, pattern)
  {
    if b == [] {
      assert a + b == a;
    } else {
      var init, last := b[..|b| - 1], b[|b| - 1];
      assert b == init + [last];
      assert a + b == (a + init) + [last];
      WithExtensionInSnoc(a + init, last, pattern);
      WithExtensionInSnoc(init, last, pattern);
      WithExtensionInDistributes(a, init, pattern);
      ConcatAssociative(WithExtensionIn(a, pattern), WithExtensionIn(init, pattern), if last.extension in pattern then [last] else []);
    }
  }

  /** Filtering a list with one more file at its end. */
  lemma WithLengthSnoc(files: seq<FileRec>, f: FileRec, n: nat)
    ensures WithLength(files + [f], n) == WithLength(files, n) + (if f.Length() == n then [f] else [])
  {
    var t := files + [f];
    assert t[..|t| - 1] == files;
  }

  /** The length filter keeps order and repeats in the same way. */
  lemma {:induction false} WithLengthDistributes(a: seq<FileRec>, b: seq<FileRec>, n: nat)
    ensures WithLength(a + b, n) == WithLength(a, n) + WithLength(b, n)
  {
    if b == [] {
      assert a + b == a;
    } else {
      var init, last := b[..|b| - 1], b[|b| - 1];
      assert b == init + [last];
      assert a + b == (a + init) + [last];
      WithLengthSnoc(a + init, last, n);
      WithLengthSnoc(init, last, n);
      WithLengthDistributes(a, init, n);
      ConcatAssociative(WithLength(a, n), WithLength(init, n), if last.Length() == n then [last] else []);
    }
  }

  /** One IGrouping<long, FileInfo>: a length and the files that have it. */
  datatype SizeGroup = SizeGroup(key: nat, members: seq<FileRec>)

  /** The members of the group with key `key`, or none (the lookup's indexer). */
  function Lookup(groups: seq<SizeGroup>, key: nat): seq<FileRec> {
    if groups == [] then []
    else if groups[0].key == key then groups[0].members
    else Lookup(groups[1..], key)
  }

  function Keys(groups: seq<SizeGroup>): set<nat> {
    set g | g in groups :: g.key
  }

  predicate KeysDistinct(groups: seq<SizeGroup>) {
    forall p, q :: 0 <= p < q < |groups| ==> groups[p].key != groups[q].key
  }

  /**
   * One step of the group-by: `f` joins the group of its length, or opens a
   * new group at the end when there is none.
   */
  function AddToGroups(groups: seq<SizeGroup>, f: FileRec): seq<SizeGroup> {
    if groups == [] then [SizeGroup(f.Length(), [f])]
    else if groups[0].key == f.Length() then
      [groups[0].(members := groups[0].members + [f])] + groups[1..]
    else
      [groups[0]] + AddToGroups(groups[1..], f)
  }

  /** Adding a file adds its length to the keys. */
  lemma {:induction false} AddToGroupsKeys(groups: seq<SizeGroup>, f: FileRec)
    ensures Keys(AddToGroups(groups, f)) == Keys(groups) + {f.Length()}
  {
    if groups != [] {
      var r := AddToGroups(groups, f);
      assert groups == [groups[0]] + groups[1..];
      assert Keys(groups) == {groups[0].key} + Keys(groups[1..]);
      if groups[0].key != f.Length() {
        AddToGroupsKeys(groups[1..], f);
        assert r == [groups[0]] + AddToGroups(groups[1..], f);
        assert Keys(r) == {groups[0].key} + Keys(AddToGroups(groups[1..], f));
      } else {
        assert r == [r[0]] + groups[1..];
        assert Keys(r) == {r[0].key} + Keys(groups[1..]);
      }
    }
  }

  /** Adding a file keeps the keys unique. */
  lemma {:induction false} AddToGroupsKeysDistinct(groups: seq<SizeGroup>, f: FileRec)
    requires KeysDistinct(groups)
    ensures KeysDistinct(AddToGroups(groups, f))
  {
    if groups == [] {
    } else if groups[0].key != f.Length() {
      var tail := AddToGroups(groups[1..], f);
      AddToGroupsKeysDistinct(groups[1..], f);
      AddToGroupsKeys(groups[1..], f);
      var r := [groups[0]] + tail;
      assert r == AddToGroups(groups, f);
      forall p, q | 0 <= p < q < |r| ensures r[p].key != r[q].key {
        if p == 0 {
          assert r[q] == tail[q - 1];
          assert r[q].key in Keys(tail);
          assert r[q].key in Keys(groups[1..]) + {f.Length()};
          if r[q].key in Keys(groups[1..]) {
            var g :| g in groups[1..] && g.key == r[q].key;
            var j :| 0 <= j < |groups[1..]| && groups[1..][j] == g;
            assert groups[j + 1] == g;
          }
        } else {
          assert r[p] == tail[p - 1] && r[q] == tail[q - 1];
        }
      }
    }
  }

  /** Adding a file keeps every group non-empty. */
  lemma {:induction false} AddToGroupsNonEmpty(groups: seq<SizeGroup>, f: FileRec)
    requires forall g :: g in groups ==> g.members != []
    ensures forall g :: g in AddToGroups(groups, f) ==> g.members != []
  {
    if groups != [] && groups[0].key != f.Length() {
      AddToGroupsNonEmpty(groups[1..], f);
    }
  }

  /** Adding a file appends it to the members of its length and changes no other lookup. */
  lemma {:induction false} AddToGroupsLookup(groups: seq<SizeGroup>, f: FileRec, k: nat)
    ensures Lookup(AddToGroups(groups, f), k) == Lookup(groups, k) + (if k == f.Length() then [f] else [])
  {
    if groups != [] && groups[0].key != f.Length() {
      AddToGroupsLookup(groups[1..], f, k);
    }
  }

  /** `group x by x.Length`: one group per distinct length. */
  function GroupByLength(files: seq<FileRec>): (r: seq<SizeGroup>)
    ensures KeysDistinct(r)
    ensures Keys(r) == set f | f in files :: f.Length()
    ensures forall k :: Lookup(r, k) == WithLength(files, k)
    ensures forall g :: g in r ==> g.members != []
  {
    if files == [] then []
    else
      var init, last := files[..|files| - 1], files[|files| - 1];
      assert files == init + [last];
      assert (set f | f in files :: f.Length()) == (set f | f in init :: f.Length()) + {last.Length()};
      AddToGroupsKeys(GroupByLength(init), last);
      AddToGroupsKeysDistinct(GroupByLength(init), last);
      AddToGroupsNonEmpty(GroupByLength(init), last);
      assert forall k :: Lookup(AddToGroups(GroupByLength(init), last), k) == WithLength(files, k) by {
        forall k ensures Lookup(AddToGroups(GroupByLength(init), last), k) == WithLength(files, k) {
          AddToGroupsLookup(GroupByLength(init), last, k);
        }
      }
      AddToGroups(GroupByLength(init), last)
  }

  /** What GetFiles assigns to FileSizeGroups. */
  function SizeGroupsOf(files: seq<FileRec>, pattern: seq<string>): seq<SizeGroup> {
    GroupByLength(Selected(files, pattern))
  }

  /** In groups with distinct keys, a group's members are what the lookup of its key finds. */
  lemma {:induction false} LookupFindsGroup(groups: seq<SizeGroup>, i: nat)
    requires KeysDistinct(groups) && i < |groups|
    ensures Lookup(groups, groups[i].key) == groups[i].members
  {
    if i > 0 {
      assert groups[0].key != groups[i].key;
      assert groups[1..][i - 1] == groups[i];
      LookupFindsGroup(groups[1..], i - 1);
    }
  }

  /** Every group of GroupByLength holds exactly the files of its length. */
  lemma GroupIsAllFilesOfItsLength(files: seq<FileRec>, i: nat)
    requires i < |GroupByLength(files)|
    ensures GroupByLength(files)[i].members == WithLength(files, GroupByLength(files)[i].key)
  {
    LookupFindsGroup(GroupByLength(files), i);
  }

  /**
   * GetFiles partitions the selected files by length: each group is
   * non-empty and all of one length, keys are unique, and a file lands in
   * some group exactly when the extension filter lets it through (always
   * when the pattern list is empty).
   */
  lemma SizeGroupsPartition(files: seq<FileRec>, pattern: seq<string>)
    ensures KeysDistinct(SizeGroupsOf(files, pattern))
    ensures forall g :: g in SizeGroupsOf(files, pattern) ==>
      g.members != [] &&
      forall x :: x in g.members ==>
        x.Length() == g.key && x in files && (pattern != [] ==> x.extension in pattern)
    ensures forall x :: x in files ==>
      ((exists g :: g in SizeGroupsOf(files, pattern) && x in g.members) <==> (pattern == [] || x.extension in pattern))
  {
    var fs := Selected(files, pattern);
    var groups := SizeGroupsOf(files, pattern);
    forall g | g in groups
      ensures forall x :: x in g.members ==> x.Length() == g.key && x in fs
    {
      var i :| 0 <= i < |groups| && groups[i] == g;
      GroupIsAllFilesOfItsLength(fs, i);
    }
    forall x | x in files && (pattern == [] || x.extension in pattern)
      ensures exists g :: g in groups && x in g.members
    {
      assert x in fs;
      assert x.Length() in Keys(groups);
      var i :| 0 <= i < |groups| && groups[i].key == x.Length();
      GroupIsAllFilesOfItsLength(fs, i);
      assert x in groups[i].members;
    }
  }
}
