/** The headers of the files of a saved index. */
module SaveHeaders {
  import opened Numbers
  import opened UdsStatus

  const MAX_ZONES := 16

  /** What the file of one zone begins with: the zone, how many zones there are, the
      first list, the counts, and the sizes of the lists. */
  datatype SaveHeader = SaveHeader(zone: nat, numZones: nat, firstList: nat, records: nat, collisions: nat,
    sizes: seq<nat>)

  /** Sizes are 16-bit. */
  predicate AreSmall(sizes: seq<nat>) {
    forall k :: 0 <= k < |sizes| ==> sizes[k] <= 65535
  }

  function AllSizes(ordered: seq<SaveHeader>): seq<nat> {
    if ordered == [] then [] else AllSizes(ordered[..|ordered| - 1]) + ordered[|ordered| - 1].sizes
  }

  function AllRecords(headers: seq<SaveHeader>): nat {
    if headers == [] then 0 else AllRecords(headers[..|headers| - 1]) + headers[|headers| - 1].records
  }

  function AllCollisions(headers: seq<SaveHeader>): nat {
    if headers == [] then 0 else AllCollisions(headers[..|headers| - 1]) + headers[|headers| - 1].collisions
  }

  /** The headers, in any order, are those of all zones of one index. */
  ghost predicate AreZones(headers: seq<SaveHeader>, ordered: seq<SaveHeader>) {
    && |ordered| == |headers|
    && (forall i :: 0 <= i < |headers| ==> IsZone(headers, ordered, i))
    && (forall i, j :: 0 <= i < j < |headers| ==> headers[i].zone != headers[j].zone)
  }

  ghost predicate IsZone(headers: seq<SaveHeader>, ordered: seq<SaveHeader>, i: nat)
    requires i < |headers| == |ordered|
  {
    headers[i].numZones == |headers| && headers[i].zone < |headers| && ordered[headers[i].zone] == headers[i]
  }

  /** Together they have all lists. */
  ghost predicate HaveLists(ordered: seq<SaveHeader>, n: nat) requires n <= |ordered| {
    forall z :: 0 <= z < n ==> ordered[z].firstList == |AllSizes(ordered[..z])|
  }

  ghost predicate IsMatchingSet(headers: seq<SaveHeader>, ordered: seq<SaveHeader>, numLists: nat) {
    && 0 < |headers| <= MAX_ZONES && AreZones(headers, ordered)
    && HaveLists(ordered, |ordered|) && |AllSizes(ordered)| == numLists
    && AllCollisions(headers) % UINT64_RANGE <= AllRecords(headers) % UINT64_RANGE
  }

  /** What has been sorted by zone so far. */
  ghost predicate Sorted(headers: seq<SaveHeader>, found: seq<Option<SaveHeader>>, n: nat) {
    && n <= |headers| == |found|
    && (forall i :: 0 <= i < n ==>
          headers[i].numZones == |headers| && headers[i].zone < |headers| && found[headers[i].zone] == Some(headers[i]))
    && (forall i, j :: 0 <= i < j < n ==> headers[i].zone != headers[j].zone)
    && (forall z :: 0 <= z < |found| && found[z].Some? ==> IsFound(headers, found, n, z))
    && CountFound(found) == n
  }

  ghost predicate IsFound(headers: seq<SaveHeader>, found: seq<Option<SaveHeader>>, n: nat, z: nat)
    requires z < |found| && n <= |headers|
  {
    exists i :: 0 <= i < n && headers[i].zone == z && found[z] == Some(headers[i])
  }

  ghost function CountFound(found: seq<Option<SaveHeader>>): (n: nat)
    ensures n <= |found|
  {
    if found == [] then 0 else CountFound(found[..|found| - 1]) + (if found[|found| - 1].Some? then 1 else 0)
  }

  lemma {:induction false} CountFoundMore(found: seq<Option<SaveHeader>>, z: nat, h: SaveHeader)
    requires z < |found| && found[z].None?
    ensures CountFound(found[z := Some(h)]) == CountFound(found) + 1
  {
    var n := |found| - 1;
    if z < n {
      CountFoundMore(found[..n], z, h);
      assert found[z := Some(h)][..n] == found[..n][z := Some(h)];
    } else {
      assert found[z := Some(h)][..n] == found[..n];
    }
  }

  lemma {:induction false} AllFound(found: seq<Option<SaveHeader>>)
    requires CountFound(found) == |found|
    ensures forall z :: 0 <= z < |found| ==> found[z].Some?
  {
    if found != [] {
      AllFound(found[..|found| - 1]);
    }
  }

  lemma {:induction false} NoneFound(found: seq<Option<SaveHeader>>)
    requires forall z :: 0 <= z < |found| ==> found[z].None?
    ensures CountFound(found) == 0
  {
    if found != [] {
      NoneFound(found[..|found| - 1]);
    }
  }

  lemma SortedMore(headers: seq<SaveHeader>, found: seq<Option<SaveHeader>>, n: nat)
    requires Sorted(headers, found, n) && n < |headers| && headers[n].numZones == |headers| &&
      headers[n].zone < |headers|
    requires found[headers[n].zone].None?
    ensures Sorted(headers, found[headers[n].zone := Some(headers[n])], n + 1)
  {
    var h, found' := headers[n], found[headers[n].zone := Some(headers[n])];
    CountFoundMore(found, h.zone, h);
    forall i | 0 <= i < n
      ensures headers[i].zone != h.zone
    {
      assert found[headers[i].zone] == Some(headers[i]);
    }
    forall z | 0 <= z < |found'| && found'[z].Some?
      ensures IsFound(headers, found', n + 1, z)
    {
      if z != h.zone {
        assert IsFound(headers, found, n, z);
      }
    }
  }

  /** Once all headers are sorted there is one for every zone. */
  lemma SortedAll(headers: seq<SaveHeader>, found: seq<Option<SaveHeader>>) returns (ordered: seq<SaveHeader>)
    requires Sorted(headers, found, |headers|)
    ensures AreZones(headers, ordered) && forall z :: 0 <= z < |found| ==> found[z] == Some(ordered[z])
  {
    AllFound(found);
    ordered := seq(|found|, z requires 0 <= z < |found| => found[z].value);
    assert forall i :: 0 <= i < |headers| ==> IsZone(headers, ordered, i);
  }

  /** There is only one order. */
  lemma OneOrder(headers: seq<SaveHeader>, found: seq<Option<SaveHeader>>, a: seq<SaveHeader>, b: seq<SaveHeader>)
    requires Sorted(headers, found, |headers|) && AreZones(headers, a) && AreZones(headers, b)
    ensures a == b
  {
    AllFound(found);
    forall z | 0 <= z < |a|
      ensures a[z] == b[z]
    {
      assert IsFound(headers, found, |headers|, z);
      var i :| 0 <= i < |headers| && headers[i].zone == z && found[z] == Some(headers[i]);
      assert IsZone(headers, a, i) && IsZone(headers, b, i);
    }
  }

  /** A sum of words may wrap around at every step. */
  lemma SumWraps(a: int, b: int)
    ensures (a % UINT64_RANGE + b) % UINT64_RANGE == (a + b) % UINT64_RANGE
  {
  }

  /** Check that the files make up one saved index, and put their list sizes in order. */
  method ReadSizes(headers: seq<SaveHeader>, numLists: nat)
    returns (status: Status, sizes: seq<nat>, recordCount: nat, collisionCount: nat)
    requires forall i :: 0 <= i < |headers| ==> AreSmall(headers[i].sizes)
    ensures status.Success? ==>
      recordCount == AllRecords(headers) % UINT64_RANGE && collisionCount == AllCollisions(headers) % UINT64_RANGE
    ensures status.Success? ==> |sizes| == numLists && AreSmall(sizes)
    ensures status.Success? <==> exists ordered :: IsMatchingSet(headers, ordered, numLists)
    ensures forall ordered :: IsMatchingSet(headers, ordered, numLists) ==> sizes == AllSizes(ordered)
    ensures !status.Success? ==> status == if 0 < |headers| <= MAX_ZONES then CorruptComponent else InvalidArgument
  {
    hide AllSizes, AllRecords, AllCollisions, CountFound, IsFound;
    sizes, recordCount, collisionCount := [], 0, 0;
    var numZones := |headers|;
    if numZones == 0 || numZones > MAX_ZONES {
      return InvalidArgument, sizes, 0, 0;
    }
    var found: seq<Option<SaveHeader>> := seq(numZones, _ => None);
    NoneFound(found);
    NoCounts();
    for n := 0 to numZones
      invariant Sorted(headers, found, n) && sizes == []
      invariant recordCount == AllRecords(headers[..n]) % UINT64_RANGE
      invariant collisionCount == AllCollisions(headers[..n]) % UINT64_RANGE
    {
      var h := headers[n];
      if h.numZones != numZones || h.zone >= numZones || found[h.zone].Some? {
        NoMatch(headers, found, n, numLists);
        return CorruptComponent, sizes, 0, 0;
      }
      SortedMore(headers, found, n);
      CountsMore(headers, n);
      found := found[h.zone := Some(h)];
      SumWraps(AllRecords(headers[..n]), h.records);
      SumWraps(AllCollisions(headers[..n]), h.collisions);
      recordCount := (recordCount + h.records) % UINT64_RANGE;
      collisionCount := (collisionCount + h.collisions) % UINT64_RANGE;
    }
    assert headers[..numZones] == headers;
    ghost var ordered := SortedAll(headers, found);
    forall other | IsMatchingSet(headers, other, numLists)
      ensures other == ordered
    {
      OneOrder(headers, found, other, ordered);
    }
    NoSizes(ordered);
    AllSmall(headers, found, ordered);
    for z := 0 to numZones
      invariant sizes == AllSizes(ordered[..z]) && HaveLists(ordered, z) && AreSmall(sizes)
    {
      if found[z].value.firstList != |sizes| {
        assert !HaveLists(ordered, |ordered|);
        return CorruptComponent, sizes, 0, 0;
      }
      SizesMore(ordered, z);
      sizes := sizes + found[z].value.sizes;
    }
    assert ordered[..numZones] == ordered;
    if |sizes| != numLists || collisionCount > recordCount {
      return CorruptComponent, sizes, 0, 0;
    }
    assert IsMatchingSet(headers, ordered, numLists);
    return Success, sizes, recordCount, collisionCount;
  }

  lemma AllSmall(headers: seq<SaveHeader>, found: seq<Option<SaveHeader>>, ordered: seq<SaveHeader>)
    requires Sorted(headers, found, |headers|) && |ordered| == |found| && forall z :: 0 <= z < |found| ==>
      found[z] == Some(ordered[z])
    requires forall i :: 0 <= i < |headers| ==> AreSmall(headers[i].sizes)
    ensures forall z :: 0 <= z < |ordered| ==> AreSmall(ordered[z].sizes)
  {
    hide AreSmall;
    forall z | 0 <= z < |ordered|
      ensures AreSmall(ordered[z].sizes)
    {
      assert found[z].Some? && IsFound(headers, found, |headers|, z);
    }
  }

  lemma NoCounts()
    ensures AllRecords([]) == 0 && AllCollisions([]) == 0
  {
  }

  lemma NoSizes(ordered: seq<SaveHeader>)
    ensures AllSizes(ordered[..0]) == []
  {
  }

  lemma CountsMore(headers: seq<SaveHeader>, n: nat)
    requires n < |headers|
    ensures AllRecords(headers[..n + 1]) == AllRecords(headers[..n]) + headers[n].records
    ensures AllCollisions(headers[..n + 1]) == AllCollisions(headers[..n]) + headers[n].collisions
  {
    assert headers[..n + 1][..n] == headers[..n];
  }

  lemma SizesMore(ordered: seq<SaveHeader>, z: nat)
    requires z < |ordered|
    ensures AllSizes(ordered[..z + 1]) == AllSizes(ordered[..z]) + ordered[z].sizes
  {
    assert ordered[..z + 1][..z] == ordered[..z];
  }

  /** A header that does not belong spoils the set. */
  lemma NoMatch(headers: seq<SaveHeader>, found: seq<Option<SaveHeader>>, n: nat, numLists: nat)
    requires Sorted(headers, found, n) && n < |headers|
    requires headers[n].numZones != |headers| || headers[n].zone >= |headers| || found[headers[n].zone].Some?
    ensures !exists ordered :: IsMatchingSet(headers, ordered, numLists)
  {
    if headers[n].numZones == |headers| && headers[n].zone < |headers| {
      assert IsFound(headers, found, n, headers[n].zone);
      var i :| 0 <= i < n && headers[i].zone == headers[n].zone;
    }
    forall ordered
      ensures !IsMatchingSet(headers, ordered, numLists)
    {
      assert IsMatchingSet(headers, ordered, numLists) ==> IsZone(headers, ordered, n);
    }
  }
}
