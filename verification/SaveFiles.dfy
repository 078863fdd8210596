/** The files of a saved index, one for each zone: what makes them a save of given
    lists, and that their order does not matter (uds/deltaIndex.c). */
module SaveFiles {
  import opened Bits
  import opened Numbers
  import opened DeltaSave
  import opened SaveHeaders

  /** A header, and then one record for each list that is not empty. */
  datatype SaveFile = SaveFile(header: SaveHeader, records: seq<SavedList>)

  function HeadersOf(files: seq<SaveFile>): (headers: seq<SaveHeader>)
    ensures |headers| == |files| && forall i :: 0 <= i < |files| ==> headers[i] == files[i].header
  {
    seq(|files|, i requires 0 <= i < |files| => files[i].header)
  }

  function WholeStream(files: seq<SaveFile>): seq<SavedList> {
    if files == [] then [] else WholeStream(files[..|files| - 1]) + files[|files| - 1].records
  }

  function WholeImage(parts: seq<seq<seq<bool>>>): seq<seq<bool>> {
    if parts == [] then [] else WholeImage(parts[..|parts| - 1]) + parts[|parts| - 1]
  }

  /** The sizes of the lists of the image. */
  ghost predicate AreSizes(sizes: seq<nat>, image: seq<seq<bool>>) {
    |sizes| == |image| && forall k :: 0 <= k < |sizes| ==> sizes[k] == |image[k]|
  }

  /** The file of zone z holds its part of the image, which follows those of the zones
      before. */
  ghost predicate IsZoneFile(tag: char, files: seq<SaveFile>, parts: seq<seq<seq<bool>>>, z: nat)
    requires z < |files| == |parts|
  {
    var h, first := files[z].header, |WholeImage(parts[..z])|;
    && h.zone == z && h.numZones == |files| && h.firstList == first
    && AreSizes(h.sizes, parts[z]) && AreSmall(h.sizes) && Complete(tag, first, files[z].records, parts[z])
  }

  /** The counts of all zones together are possible ones. */
  ghost predicate CountsAgree(headers: seq<SaveHeader>) {
    AllCollisions(headers) % UINT64_RANGE <= AllRecords(headers) % UINT64_RANGE
  }

  ghost predicate IsSave(tag: char, files: seq<SaveFile>, parts: seq<seq<seq<bool>>>) {
    && 0 < |files| <= MAX_ZONES && |parts| == |files| && CountsAgree(HeadersOf(files))
    && forall z :: 0 <= z < |files| ==> IsZoneFile(tag, files, parts, z)
  }

  /** The sizes in the headers are those of the image. */
  lemma {:induction false} SavedSizes(files: seq<SaveFile>, parts: seq<seq<seq<bool>>>, n: nat)
    requires n <= |files| == |parts| && forall z :: 0 <= z < n ==> AreSizes(files[z].header.sizes, parts[z])
    ensures AreSizes(AllSizes(HeadersOf(files)[..n]), WholeImage(parts[..n]))
  {
    if n > 0 {
      SavedSizes(files, parts, n - 1);
      assert HeadersOf(files)[..n][..n - 1] == HeadersOf(files)[..n - 1] && parts[..n][..n - 1] == parts[..n - 1];
    } else {
      assert HeadersOf(files)[..0] == [] && parts[..0] == [];
    }
  }

  /** The files of a save, in any order, are a matching set with the sizes of the image. */
  lemma SavedMatch(tag: char, files: seq<SaveFile>, parts: seq<seq<seq<bool>>>, shuffled: seq<SaveFile>)
    requires IsSave(tag, files, parts) && multiset(shuffled) == multiset(files)
    ensures IsMatchingSet(HeadersOf(shuffled), HeadersOf(files), |WholeImage(parts)|)
    ensures AreSizes(AllSizes(HeadersOf(files)), WholeImage(parts))
    ensures forall i :: 0 <= i < |shuffled| ==> AreSmall(shuffled[i].header.sizes)
  {
    hide AllSizes, AllRecords, AllCollisions, WholeImage, Complete, AreSizes;
    var headers, ordered := HeadersOf(shuffled), HeadersOf(files);
    SameLength(shuffled, files);
    Permuted(shuffled, files);
    forall k | 0 <= k < |files|
      ensures files[k].header.zone == k && files[k].header.firstList == |WholeImage(parts[..k])|
      ensures AreSizes(files[k].header.sizes, parts[k])
    {
      assert IsZoneFile(tag, files, parts, k);
    }
    forall z | 0 <= z < |files|
      ensures ordered[z].firstList == |AllSizes(ordered[..z])|
    {
      SavedSizes(files, parts, z);
      SameCount(AllSizes(ordered[..z]), WholeImage(parts[..z]));
    }
    SavedSizes(files, parts, |files|);
    assert ordered[..|files|] == ordered && parts[..|files|] == parts;
    SameCount(AllSizes(ordered), WholeImage(parts));
    forall i | 0 <= i < |shuffled|
      ensures IsZone(headers, ordered, i) && AreSmall(shuffled[i].header.sizes)
    {
      InBoth(files, shuffled, shuffled[i]);
      var z :| 0 <= z < |files| && files[z] == shuffled[i];
      assert IsZoneFile(tag, files, parts, z);
    }
    forall i, j | 0 <= i < j < |shuffled|
      ensures headers[i].zone != headers[j].zone
    {
      StillDistinct(files, shuffled, (f: SaveFile) => f.header.zone, i, j);
    }
  }

  lemma SameCount(sizes: seq<nat>, image: seq<seq<bool>>)
    requires AreSizes(sizes, image)
    ensures |sizes| == |image|
  {
  }

  lemma SameLength<T>(a: seq<T>, b: seq<T>)
    requires multiset(a) == multiset(b)
    ensures |a| == |b|
  {
    assert |multiset(a)| == |a| && |multiset(b)| == |b|;
  }

  /** The files of a save, one after the other in any order, are a complete save of the
      whole image. */
  lemma SavedComplete(tag: char, files: seq<SaveFile>, parts: seq<seq<seq<bool>>>, shuffled: seq<SaveFile>)
    requires IsSave(tag, files, parts) && multiset(shuffled) == multiset(files)
    ensures Complete(tag, 0, WholeStream(shuffled), WholeImage(parts))
  {
    hide Complete, WholeStream, WholeImage, AllRecords, AllCollisions, AreSizes;
    ZonesComplete(tag, files, parts, |files|);
    assert files[..|files|] == files && parts[..|files|] == parts;
    Permuted(shuffled, files);
    AnyOrderComplete(tag, WholeStream(files), WholeStream(shuffled), WholeImage(parts));
  }

  lemma {:induction false} ZonesComplete(tag: char, files: seq<SaveFile>, parts: seq<seq<seq<bool>>>, n: nat)
    requires n <= |files| == |parts| && forall z :: 0 <= z < n ==> IsZoneFile(tag, files, parts, z)
    ensures Complete(tag, 0, WholeStream(files[..n]), WholeImage(parts[..n]))
  {
    hide Complete;
    if n == 0 {
      NothingComplete(tag);
    } else {
      ZonesComplete(tag, files, parts, n - 1);
      assert files[..n][..n - 1] == files[..n - 1] && parts[..n][..n - 1] == parts[..n - 1];
      assert IsZoneFile(tag, files, parts, n - 1);
      TwoComplete(tag, WholeStream(files[..n - 1]), WholeImage(parts[..n - 1]), files[n - 1].records, parts[n - 1]);
    }
  }

  /** Sums and streams do not depend on the order of the files, but for the order of
      the records. */
  lemma {:induction false} Permuted(a: seq<SaveFile>, b: seq<SaveFile>)
    requires multiset(a) == multiset(b)
    ensures AllRecords(HeadersOf(a)) == AllRecords(HeadersOf(b))
    ensures AllCollisions(HeadersOf(a)) == AllCollisions(HeadersOf(b))
    ensures multiset(WholeStream(a)) == multiset(WholeStream(b))
    decreases |b|
  {
    hide AllRecords, AllCollisions, WholeStream;
    SameLength(a, b);
    if b != [] {
      var n := |b| - 1;
      InBoth(a, b, b[n]);
      var i :| 0 <= i < |a| && a[i] == b[n];
      var rest := a[..i] + a[i + 1..];
      assert b[..n] + b[n + 1..] == b[..n];
      Removed(a, i);
      Removed(b, n);
      Permuted(rest, b[..n]);
      WithoutOne(a, i);
      WithoutOne(b, n);
    }
  }

  lemma Removed<T>(s: seq<T>, i: nat)
    requires i < |s|
    ensures multiset(s[..i] + s[i + 1..]) == multiset(s) - multiset{s[i]}
  {
    assert s == s[..i] + [s[i]] + s[i + 1..];
    assert multiset(s) == multiset(s[..i]) + multiset{s[i]} + multiset(s[i + 1..]);
  }

  /** What the last file adds. */
  lemma LastFile(a: seq<SaveFile>)
    requires a != []
    ensures var n := |a| - 1;
      && AllRecords(HeadersOf(a)) == AllRecords(HeadersOf(a[..n])) + a[n].header.records
      && AllCollisions(HeadersOf(a)) == AllCollisions(HeadersOf(a[..n])) + a[n].header.collisions
      && multiset(WholeStream(a)) == multiset(WholeStream(a[..n])) + multiset(a[n].records)
  {
    var n := |a| - 1;
    assert HeadersOf(a)[..n] == HeadersOf(a[..n]);
  }

  /** What one file adds. */
  lemma {:induction false} WithoutOne(a: seq<SaveFile>, i: nat)
    requires i < |a|
    ensures var rest := a[..i] + a[i + 1..];
      && AllRecords(HeadersOf(a)) == AllRecords(HeadersOf(rest)) + a[i].header.records
      && AllCollisions(HeadersOf(a)) == AllCollisions(HeadersOf(rest)) + a[i].header.collisions
      && multiset(WholeStream(a)) == multiset(WholeStream(rest)) + multiset(a[i].records)
    decreases |a|
  {
    hide AllRecords, AllCollisions, WholeStream, HeadersOf;
    var n, rest := |a| - 1, a[..i] + a[i + 1..];
    LastFile(a);
    if i == n {
      assert rest == a[..n];
    } else {
      WithoutOne(a[..n], i);
      assert a[..n][..i] + a[..n][i + 1..] == rest[..n - 1] && rest[n - 1] == a[n];
      LastFile(rest);
    }
  }

  lemma NothingComplete(tag: char)
    ensures Complete(tag, 0, [], [])
  {
  }

  lemma TwoComplete(tag: char, wa: seq<SavedList>, ia: seq<seq<bool>>, wb: seq<SavedList>, ib: seq<seq<bool>>)
    requires Complete(tag, 0, wa, ia) && Complete(tag, |ia|, wb, ib)
    ensures Complete(tag, 0, wa + wb, ia + ib)
  {
    hide Holds;
    var w, image := wa + wb, ia + ib;
    var fa, fb, f := seq(|ia|, _ => false), seq(|ib|, _ => false), seq(|image|, _ => false);
    forall a | 0 <= a < |w|
      ensures Faithful(w[a], f, tag, 0, image) && (a < |wa| ==> w[a].index < |ia|) && (a >= |wa| ==> w[a].index >= |ia|)
    {
      if a < |wa| {
        assert Faithful(wa[a], fa, tag, 0, ia);
      } else {
        assert Faithful(wb[a - |wa|], fb, tag, |ia|, ib);
      }
    }
    forall a, b | 0 <= a < b < |w|
      ensures w[a].index != w[b].index
    {
      if a >= |wa| {
        assert wb[a - |wa|].index != wb[b - |wa|].index;
      }
    }
    forall k | 0 <= k < |f| && !f[k] && image[k] != []
      ensures IsWritten(w, 0 + k)
    {
      WrittenInTwo(wa, wb, k);
      if k < |ia| {
        assert !fa[k] && IsWritten(wa, 0 + k);
      } else {
        assert !fb[k - |ia|] && IsWritten(wb, |ia| + (k - |ia|));
      }
    }
  }

  lemma WrittenInTwo(wa: seq<SavedList>, wb: seq<SavedList>, index: nat)
    ensures IsWritten(wa, index) || IsWritten(wb, index) ==> IsWritten(wa + wb, index)
  {
    var w := wa + wb;
    if a :| 0 <= a < |wa| && wa[a].index == index {
      assert w[a].index == index;
    } else if b :| 0 <= b < |wb| && wb[b].index == index {
      assert w[|wa| + b].index == index;
    }
  }

  /** The order of the records does not matter. */
  lemma AnyOrderComplete(tag: char, stream: seq<SavedList>, shuffled: seq<SavedList>, image: seq<seq<bool>>)
    requires Complete(tag, 0, stream, image) && multiset(shuffled) == multiset(stream)
    ensures Complete(tag, 0, shuffled, image)
  {
    hide Holds;
    var f := seq(|image|, _ => false);
    forall a | 0 <= a < |shuffled|
      ensures Faithful(shuffled[a], f, tag, 0, image)
    {
      InBoth(stream, shuffled, shuffled[a]);
      var b :| 0 <= b < |stream| && stream[b] == shuffled[a];
    }
    forall a, b | 0 <= a < b < |shuffled|
      ensures shuffled[a].index != shuffled[b].index
    {
      StillDistinct(stream, shuffled, (r: SavedList) => r.index, a, b);
    }
    forall k | 0 <= k < |f| && !f[k] && image[k] != []
      ensures IsWritten(shuffled, 0 + k)
    {
      assert IsWritten(stream, 0 + k);
      var b :| 0 <= b < |stream| && stream[b].index == 0 + k;
      InBoth(shuffled, stream, stream[b]);
      var a :| 0 <= a < |shuffled| && shuffled[a] == stream[b];
      assert shuffled[a].index == 0 + k;
    }
  }

  lemma InBoth<T>(a: seq<T>, b: seq<T>, x: T)
    requires multiset(a) == multiset(b) && x in b
    ensures x in a
  {
    assert x in multiset(b);
  }

  /** What differs in pairs still does in another order. */
  lemma StillDistinct<T>(a: seq<T>, b: seq<T>, key: T -> nat, i: nat, j: nat)
    requires multiset(a) == multiset(b) && i < j < |b|
    requires forall k, l :: 0 <= k < l < |a| ==> key(a[k]) != key(a[l])
    ensures key(b[i]) != key(b[j])
  {
    InBoth(a, b, b[i]);
    InBoth(a, b, b[j]);
    var k :| 0 <= k < |a| && a[k] == b[i];
    var l :| 0 <= l < |a| && a[l] == b[j];
    if k == l {
      OnceCounts(a, k);
      TwiceCounts(b, i, j);
    }
  }

  lemma TwiceCounts<T>(s: seq<T>, a: nat, b: nat)
    requires a < b < |s| && s[a] == s[b]
    ensures multiset(s)[s[a]] >= 2
  {
    assert s == s[..b] + s[b..] && s[a] in s[..b] && s[b] in s[b..];
    assert multiset(s) == multiset(s[..b]) + multiset(s[b..]);
  }

  lemma OnceCounts<T>(s: seq<T>, i: nat)
    requires i < |s| && forall k :: 0 <= k < |s| && k != i ==> s[k] != s[i]
    ensures multiset(s)[s[i]] == 1
  {
    assert s == s[..i] + [s[i]] + s[i + 1..];
    assert multiset(s) == multiset(s[..i]) + multiset{s[i]} + multiset(s[i + 1..]);
    assert s[i] !in s[..i] && s[i] !in s[i + 1..];
  }
}
