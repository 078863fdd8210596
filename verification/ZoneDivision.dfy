/** Delta lists divided among zones (uds/deltaIndex.c). */
module ZoneDivision {
  import opened Numbers
  import opened DeltaCode

  /** How many lists each zone but the last has. */
  function ListsPerZone(numLists: nat, numZones: nat): nat
    requires numZones > 0
  {
    (numLists + numZones - 1) / numZones
  }

  /** The check of initializeDeltaIndex: the last zone has a list. */
  predicate EnoughLists(numLists: nat, numZones: nat)
    requires numZones > 0
  {
    (numZones - 1) * ListsPerZone(numLists, numZones) < numLists
  }

  function FirstList(numLists: nat, numZones: nat, zone: nat): nat
    requires numZones > 0
  {
    zone * ListsPerZone(numLists, numZones)
  }

  function ListsInZone(numLists: nat, numZones: nat, zone: nat): nat
    requires zone < numZones && EnoughLists(numLists, numZones)
  {
    if zone == numZones - 1 then numLists - FirstList(numLists, numZones, zone) else ListsPerZone(numLists, numZones)
  }

  function ZoneOf(numLists: nat, numZones: nat, list: nat): nat
    requires numZones > 0 && ListsPerZone(numLists, numZones) > 0
  {
    list / ListsPerZone(numLists, numZones)
  }

  lemma PerZoneBounds(numLists: nat, numZones: nat)
    requires numZones > 0
    ensures var k := ListsPerZone(numLists, numZones);
      numZones * k >= numLists && (k > 0 ==> numZones * (k - 1) < numLists) && (k > 0 <==> numLists > 0)
  {
    var k := ListsPerZone(numLists, numZones);
    DivMod(numLists + numZones - 1, numZones);
    assert k * numZones == numZones * k && numZones * (k - 1) == numZones * k - numZones;
  }

  /** Every list is routed to a zone, and it is one of the lists of that zone. */
  lemma RoutedToItsZone(numLists: nat, numZones: nat, list: nat)
    requires numZones > 0 && EnoughLists(numLists, numZones) && list < numLists
    ensures ListsPerZone(numLists, numZones) > 0
    ensures var z := ZoneOf(numLists, numZones, list);
      && z < numZones
      && FirstList(numLists, numZones, z) <= list < FirstList(numLists, numZones, z) +
          ListsInZone(numLists, numZones, z)
  {
    hide ListsPerZone;
    PerZoneBounds(numLists, numZones);
    var k := ListsPerZone(numLists, numZones);
    DivMod(list, k);
    var z := list / k;
    if z >= numZones {
      MulMonotone(numZones, z, k);
    }
  }

  /** The zones follow one another and share no list. */
  lemma ZonesFollow(numLists: nat, numZones: nat, zone: nat)
    requires zone < numZones && EnoughLists(numLists, numZones)
    ensures FirstList(numLists, numZones, zone) + ListsInZone(numLists, numZones, zone) ==
      if zone == numZones - 1 then numLists else FirstList(numLists, numZones, zone + 1)
    ensures ListsInZone(numLists, numZones, zone) > 0
  {
    hide ListsPerZone;
    PerZoneBounds(numLists, numZones);
    var k := ListsPerZone(numLists, numZones);
    assert (zone + 1) * k == zone * k + k;
  }

  /** The zone of a list is the only one that has it. */
  lemma OnlyItsZone(numLists: nat, numZones: nat, list: nat, zone: nat)
    requires zone < numZones && EnoughLists(numLists, numZones) && list < numLists &&
      ListsPerZone(numLists, numZones) > 0
    requires FirstList(numLists, numZones, zone) <= list < FirstList(numLists, numZones, zone) +
      ListsInZone(numLists, numZones, zone)
    ensures zone == ZoneOf(numLists, numZones, list)
  {
    hide ListsPerZone;
    PerZoneBounds(numLists, numZones);
    var k := ListsPerZone(numLists, numZones);
    assert list < zone * k + k by {
      if zone == numZones - 1 {
        assert numZones * k == (numZones - 1) * k + k;
      }
    }
    Quotient(zone, list - zone * k, k);
  }

  /** When there are enough lists. */
  lemma EnoughListsExactly(numLists: nat, numZones: nat)
    requires numZones > 0
    ensures numLists % numZones == 0 ==> (EnoughLists(numLists, numZones) <==> numLists > 0)
    ensures numLists % numZones != 0 ==>
      (EnoughLists(numLists, numZones) <==> numZones <= numLists / numZones + numLists % numZones)
  {
    var q, r := numLists / numZones, numLists % numZones;
    DivMod(numLists, numZones);
    assert numLists == q * numZones + r;
    if r == 0 {
      Quotient(q, numZones - 1, numZones);
      assert (numZones - 1) * q == q * numZones - q;
    } else {
      assert numLists + numZones - 1 == (q + 1) * numZones + (r - 1);
      Quotient(q + 1, r - 1, numZones);
      assert (numZones - 1) * (q + 1) == q * numZones + numZones - q - 1;
    }
  }

  /** A square of lists is always enough. */
  lemma SquareIsEnough(numLists: nat, numZones: nat)
    requires numZones > 0 && numLists >= numZones * numZones
    ensures EnoughLists(numLists, numZones)
  {
    EnoughListsExactly(numLists, numZones);
    DivMod(numLists, numZones);
    var q := numLists / numZones;
    MulNext(q, numZones);
    MulCancel(numZones, q + 1, numZones);
  }

  /** One more zone than that is too many, although the comment on the check allows
      for it: 4 zones for 6 lists. */
  lemma OneZoneTooMany()
    ensures 4 == 1 + 6 / 4 + 6 % 4 && !EnoughLists(6, 4)
  {
  }
}
