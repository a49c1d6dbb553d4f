/** The list of connectors of a scene (`ConnectorContainerSO`) and the list
    operations on it: add unless the key is present, remove the first
    connector with the key, and drop the connectors a region edit made stale. */
module ConnectorContainers {
  import Grid
  import opened Collections
  import opened Regions
  import opened Connectors

  // ---------------------------------------------------------------------------
  // Keys in a list
  // ---------------------------------------------------------------------------

  /** `List.Contains`: some element is `Equals` to `c`, that is, has its key. */
  predicate HasKey(cs: seq<RegionConnector>, c: RegionConnector)
  {
    exists i :: 0 <= i < |cs| && Equals(cs[i], c)
  }

  /** No two connectors share (regionA, edgeA). */
  predicate KeysUnique(cs: seq<RegionConnector>)
  {
    forall i, j :: 0 <= i < j < |cs| ==> !Equals(cs[i], cs[j])
  }

  /** In a list with unique keys, two members with the same key are one. */
  lemma SameKeySameMember(cs: seq<RegionConnector>, i: int, j: int)
    requires KeysUnique(cs) && 0 <= i < |cs| && 0 <= j < |cs|
    requires Equals(cs[i], cs[j])
    ensures i == j
  {
  }

  /** The tail of a list with unique keys has unique keys and none of them
      is the head's. */
  lemma HeadKeyNotInTail(cs: seq<RegionConnector>)
    requires KeysUnique(cs) && cs != []
    ensures KeysUnique(cs[1..])
    ensures forall x :: x in cs[1..] ==> !Equals(cs[0], x)
  {
    var tail := cs[1..];
    forall i, j | 0 <= i < j < |tail| ensures !Equals(tail[i], tail[j]) {
      assert tail[i] == cs[i + 1] && tail[j] == cs[j + 1];
    }
    forall x | x in tail ensures !Equals(cs[0], x) {
      var m :| 0 <= m < |tail| && tail[m] == x;
      assert x == cs[m + 1];
    }
  }

  lemma HasKeySingleton(c: RegionConnector, x: RegionConnector)
    ensures HasKey([c], x) <==> Equals(c, x)
  {
    assert [c][0] == c;
  }

  lemma HasKeyAppend(rs: seq<RegionConnector>, r: RegionConnector, x: RegionConnector)
    ensures HasKey(rs + [r], x) <==> HasKey(rs, x) || Equals(r, x)
  {
    if HasKey(rs + [r], x) {
      var i :| 0 <= i < |rs + [r]| && Equals((rs + [r])[i], x);
      if i < |rs| { assert (rs + [r])[i] == rs[i]; }
    }
    if HasKey(rs, x) {
      var i :| 0 <= i < |rs| && Equals(rs[i], x);
      assert (rs + [r])[i] == rs[i];
    }
    assert (rs + [r])[|rs|] == r;
  }

  lemma ConsKeysUnique(h: RegionConnector, tail: seq<RegionConnector>)
    requires KeysUnique(tail)
    requires !HasKey(tail, h)
    ensures KeysUnique([h] + tail)
  {
    var cs := [h] + tail;
    forall i, j | 0 <= i < j < |cs| ensures !Equals(cs[i], cs[j]) {
      if i == 0 {
        assert cs[j] == tail[j - 1];
      } else {
        assert cs[i] == tail[i - 1] && cs[j] == tail[j - 1];
      }
    }
  }

  // ---------------------------------------------------------------------------
  // Add
  // ---------------------------------------------------------------------------

  /** The list after `AddConnector(c)`: it extends the old list by at most
      one element and holds the key afterwards. */
  function Added(cs: seq<RegionConnector>, c: RegionConnector): (r: seq<RegionConnector>)
    ensures cs <= r && |r| <= |cs| + 1
    ensures HasKey(r, c)
  {
    if HasKey(cs, c) then cs
    else
      assert (cs + [c])[|cs|] == c;
      cs + [c]
  }

  /** Adding keeps keys unique, and a second add of the same key changes
      nothing. */
  lemma AddedProperties(cs: seq<RegionConnector>, c: RegionConnector)
    ensures KeysUnique(cs) ==> KeysUnique(Added(cs, c))
    ensures Added(Added(cs, c), c) == Added(cs, c)
  {
    var r := Added(cs, c);
    if !HasKey(cs, c) {
      assert r[|cs|] == c;
    }
  }

  // ---------------------------------------------------------------------------
  // Remove
  // ---------------------------------------------------------------------------

  /** `List.Remove(c)`: drop the first element `Equals` to `c`, if any. */
  function RemoveFirst(cs: seq<RegionConnector>, c: RegionConnector): seq<RegionConnector>
  {
    if cs == [] then []
    else if Equals(cs[0], c) then cs[1..]
    else [cs[0]] + RemoveFirst(cs[1..], c)
  }

  /** Removal drops at most one element. */
  lemma {:induction false} RemoveFirstLength(cs: seq<RegionConnector>, c: RegionConnector)
    ensures |cs| - 1 <= |RemoveFirst(cs, c)| <= |cs|
  {
    if cs != [] && !Equals(cs[0], c) {
      RemoveFirstLength(cs[1..], c);
    }
  }

  /** `RemoveFirst` cuts out exactly the element at the first index with the
      key, keeping the order of the rest; without such an index the list is
      unchanged. */
  lemma {:induction false} RemoveFirstAt(cs: seq<RegionConnector>, c: RegionConnector, i: nat)
    requires i <= |cs|
    requires forall j :: 0 <= j < i ==> !Equals(cs[j], c)
    requires i < |cs| ==> Equals(cs[i], c)
    ensures RemoveFirst(cs, c) == if i < |cs| then cs[..i] + cs[i + 1..] else cs
    decreases i
  {
    if cs != [] && i > 0 {
      RemoveFirstAt(cs[1..], c, i - 1);
      if i < |cs| {
        assert [cs[0]] + (cs[1..][..i - 1] + cs[1..][i..]) == cs[..i] + cs[i + 1..];
      }
    }
  }

  /** `Without(cs, rs)`: the elements of `cs` whose key is not in `rs`, in order. */
  function Without(cs: seq<RegionConnector>, rs: seq<RegionConnector>): seq<RegionConnector>
  {
    if cs == [] then []
    else (if HasKey(rs, cs[0]) then [] else [cs[0]]) + Without(cs[1..], rs)
  }

  lemma {:induction false} WithoutMembers(cs: seq<RegionConnector>, rs: seq<RegionConnector>)
    ensures forall x :: x in Without(cs, rs) <==> x in cs && !HasKey(rs, x)
    ensures SubsequenceOf(Without(cs, rs), cs)
    ensures KeysUnique(cs) ==> KeysUnique(Without(cs, rs))
  {
    if cs != [] {
      WithoutMembers(cs[1..], rs);
      assert cs == [cs[0]] + cs[1..];
      var w := Without(cs[1..], rs);
      if HasKey(rs, cs[0]) {
        assert Without(cs, rs) == w;
        SubsequenceSkipHead(w, cs[0], cs[1..]);
        if KeysUnique(cs) {
          HeadKeyNotInTail(cs);
        }
      } else {
        SubsequenceCons(cs[0], w, cs[1..]);
        if KeysUnique(cs) {
          HeadKeyNotInTail(cs);
          forall k | 0 <= k < |w| ensures !Equals(w[k], cs[0]) {
            assert w[k] in w;
            assert HasKey(rs, w[k]) || !HasKey(rs, w[k]);
            assert w[k] in cs[1..];
            EqualsIsEquivalence(w[k], cs[0], cs[0]);
          }
          ConsKeysUnique(cs[0], w);
        }
      }
    }
  }

  /** `Without` of a concatenation is the concatenation of the two. */
  lemma {:induction false} WithoutConcat(a: seq<RegionConnector>, b: seq<RegionConnector>, rs: seq<RegionConnector>)
    ensures Without(a + b, rs) == Without(a, rs) + Without(b, rs)
  {
    if a != [] {
      WithoutConcat(a[1..], b, rs);
      assert (a + b)[0] == a[0] && (a + b)[1..] == a[1..] + b;
    } else {
      assert a + b == b;
    }
  }

  /** When no element has a key in `rs`, `Without` keeps everything. */
  lemma {:induction false} WithoutNothing(cs: seq<RegionConnector>, rs: seq<RegionConnector>)
    requires forall i :: 0 <= i < |cs| ==> !HasKey(rs, cs[i])
    ensures Without(cs, rs) == cs
  {
    if cs != [] {
      WithoutNothing(cs[1..], rs);
      assert cs == [cs[0]] + cs[1..];
    }
  }

  /** With unique keys, removing the first match is removing every match. */
  lemma {:induction false} RemoveFirstIsWithout(cs: seq<RegionConnector>, c: RegionConnector)
    requires KeysUnique(cs)
    ensures RemoveFirst(cs, c) == Without(cs, [c])
  {
    if cs != [] {
      var tail := cs[1..];
      HeadKeyNotInTail(cs);
      HasKeySingleton(c, cs[0]);
      if Equals(cs[0], c) {
        forall i | 0 <= i < |tail| ensures !HasKey([c], tail[i]) {
          assert tail[i] in tail;
          HasKeySingleton(c, tail[i]);
        }
        WithoutNothing(tail, [c]);
      } else {
        RemoveFirstIsWithout(tail, c);
      }
    }
  }

  /** Removing by `rs` and then by `[r]` is removing by `rs + [r]`. */
  lemma {:induction false} WithoutThenWithout(cs: seq<RegionConnector>, rs: seq<RegionConnector>, r: RegionConnector)
    ensures Without(Without(cs, rs), [r]) == Without(cs, rs + [r])
  {
    if cs != [] {
      var x := cs[0];
      WithoutThenWithout(cs[1..], rs, r);
      HasKeyAppend(rs, r, x);
      HasKeySingleton(r, x);
      var head := if HasKey(rs, x) then [] else [x];
      WithoutConcat(head, Without(cs[1..], rs), [r]);
      if head != [] {
        assert head[1..] == [];
      }
    }
  }

  /** The sequential removal of `OnRegionUpdated`'s second loop. */
  function RemoveAll(cs: seq<RegionConnector>, rs: seq<RegionConnector>): seq<RegionConnector>
    decreases |rs|
  {
    if rs == [] then cs
    else RemoveFirst(RemoveAll(cs, rs[..|rs| - 1]), rs[|rs| - 1])
  }

  /** With unique keys, removing one by one is removing every element whose
      key occurs in `rs`. */
  lemma {:induction false} RemoveAllIsWithout(cs: seq<RegionConnector>, rs: seq<RegionConnector>)
    requires KeysUnique(cs)
    ensures RemoveAll(cs, rs) == Without(cs, rs)
    decreases |rs|
  {
    if rs == [] {
      WithoutNothing(cs, rs);
    } else {
      var init := rs[..|rs| - 1];
      var r := rs[|rs| - 1];
      var w := Without(cs, init);
      calc {
        RemoveAll(cs, rs);
        RemoveFirst(RemoveAll(cs, init), r);
        { RemoveAllIsWithout(cs, init); }
        RemoveFirst(w, r);
        { WithoutMembers(cs, init); RemoveFirstIsWithout(w, r); }
        Without(w, [r]);
        { WithoutThenWithout(cs, init, r); }
        Without(cs, init + [r]);
        { assert init + [r] == rs; }
        Without(cs, rs);
      }
    }
  }

  // ---------------------------------------------------------------------------
  // Stale connectors
  // ---------------------------------------------------------------------------

  /** First clause of `OnRegionUpdated`: the connector starts in `region` on
      a cell the region no longer holds. */
  predicate StaleA(c: RegionConnector, region: RegionData)
    reads region
  {
    c.regionA == region && !region.ContainsCell(c.edgeA.cell)
  }

  /** Second clause: the connector ends in `region` on a recorded cell the
      region no longer holds. */
  predicate StaleB(c: RegionConnector, region: RegionData)
    reads region
  {
    c.regionB == region && c.cellB.Some? && !region.ContainsCell(c.cellB.value)
  }

  predicate Stale(c: RegionConnector, region: RegionData)
    reads region
  {
    StaleA(c, region) || StaleB(c, region)
  }

  /** Both clauses ask whether a cell is missing from the region's cell list. */
  lemma StaleIsMissingCell(c: RegionConnector, region: RegionData)
    ensures StaleA(c, region) <==> c.regionA == region && c.edgeA.cell !in region.containedCoords
    ensures StaleB(c, region) <==> c.regionB == region && c.cellB.Some? && c.cellB.value !in region.containedCoords
  {
  }

  /** The `toRemove` list of the first loop: a connector that is stale by
      both clauses is listed twice. */
  function Collected(cs: seq<RegionConnector>, region: RegionData): seq<RegionConnector>
    reads region
    decreases |cs|
  {
    if cs == [] then []
    else
      var c := cs[|cs| - 1];
      Collected(cs[..|cs| - 1], region) +
      (if StaleA(c, region) then [c] else []) + (if StaleB(c, region) then [c] else [])
  }

  /** Each connector is listed at most twice, once per clause. */
  lemma {:induction false} CollectedLength(cs: seq<RegionConnector>, region: RegionData)
    ensures |Collected(cs, region)| <= 2 * |cs|
    decreases |cs|
  {
    if cs != [] {
      CollectedLength(cs[..|cs| - 1], region);
    }
  }

  /** `toRemove` lists exactly the stale connectors. */
  lemma {:induction false} CollectedMembers(cs: seq<RegionConnector>, region: RegionData)
    ensures forall x :: x in Collected(cs, region) <==> x in cs && Stale(x, region)
    decreases |cs|
  {
    if cs != [] {
      CollectedMembers(cs[..|cs| - 1], region);
      assert cs == cs[..|cs| - 1] + [cs[|cs| - 1]];
    }
  }

  /** Reference definition: the connectors that are not stale, in order. */
  function KeepFresh(cs: seq<RegionConnector>, region: RegionData): seq<RegionConnector>
    reads region
  {
    if cs == [] then []
    else (if Stale(cs[0], region) then [] else [cs[0]]) + KeepFresh(cs[1..], region)
  }

  lemma {:induction false} WithoutMatchesKeepFresh(cs: seq<RegionConnector>, rs: seq<RegionConnector>, region: RegionData)
    requires forall i :: 0 <= i < |cs| ==> (HasKey(rs, cs[i]) <==> Stale(cs[i], region))
    ensures Without(cs, rs) == KeepFresh(cs, region)
  {
    if cs != [] {
      assert HasKey(rs, cs[0]) <==> Stale(cs[0], region);
      forall i | 0 <= i < |cs[1..]| ensures HasKey(rs, cs[1..][i]) <==> Stale(cs[1..][i], region) {
        assert cs[1..][i] == cs[i + 1];
      }
      WithoutMatchesKeepFresh(cs[1..], rs, region);
    }
  }

  /** What `OnRegionUpdated` does, on a list with unique keys: exactly the
      stale connectors are dropped and the rest keep their order. */
  lemma OnRegionUpdatedKeepsFresh(cs: seq<RegionConnector>, region: RegionData)
    requires KeysUnique(cs)
    ensures RemoveAll(cs, Collected(cs, region)) == KeepFresh(cs, region)
  {
    var rs := Collected(cs, region);
    RemoveAllIsWithout(cs, rs);
    CollectedMembers(cs, region);
    forall i | 0 <= i < |cs| ensures HasKey(rs, cs[i]) <==> Stale(cs[i], region) {
      if Stale(cs[i], region) {
        var k :| 0 <= k < |rs| && rs[k] == cs[i];
        assert Equals(rs[k], cs[i]);
      } else if HasKey(rs, cs[i]) {
        var k :| 0 <= k < |rs| && Equals(rs[k], cs[i]);
        assert rs[k] in rs;
        var j :| 0 <= j < |cs| && cs[j] == rs[k];
        SameKeySameMember(cs, i, j);
      }
    }
    WithoutMatchesKeepFresh(cs, rs, region);
  }

  /** The fresh connectors: a connector survives iff it was there and is not
      stale; the survivors are in their original order and keep unique keys;
      every survivor that starts in `region` starts on one of its cells. */
  lemma {:induction false} KeepFreshProperties(cs: seq<RegionConnector>, region: RegionData)
    ensures forall x :: x in KeepFresh(cs, region) <==> x in cs && !Stale(x, region)
    ensures SubsequenceOf(KeepFresh(cs, region), cs)
    ensures KeysUnique(cs) ==> KeysUnique(KeepFresh(cs, region))
    ensures forall x :: x in KeepFresh(cs, region) && x.regionA == region ==> region.ContainsCell(x.edgeA.cell)
  {
    if cs != [] {
      KeepFreshProperties(cs[1..], region);
      assert cs == [cs[0]] + cs[1..];
      var w := KeepFresh(cs[1..], region);
      if Stale(cs[0], region) {
        assert KeepFresh(cs, region) == w;
        SubsequenceSkipHead(w, cs[0], cs[1..]);
        if KeysUnique(cs) {
          HeadKeyNotInTail(cs);
        }
      } else {
        SubsequenceCons(cs[0], w, cs[1..]);
        if KeysUnique(cs) {
          HeadKeyNotInTail(cs);
          forall k | 0 <= k < |w| ensures !Equals(w[k], cs[0]) {
            assert w[k] in w;
            assert Stale(w[k], region) || !Stale(w[k], region);
            assert w[k] in cs[1..];
            EqualsIsEquivalence(w[k], cs[0], cs[0]);
          }
          ConsKeysUnique(cs[0], w);
        }
      }
    }
  }

  /** Connectors built by the constructor never record `CellB`, so for them
      only the first clause can fire. */
  lemma NoCellBOnlyFirstClause(c: RegionConnector, region: RegionData)
    requires c.cellB == None
    ensures Stale(c, region) <==> StaleA(c, region)
  {
  }

  // ---------------------------------------------------------------------------
  // The container
  // ---------------------------------------------------------------------------

  /** `ConnectorContainerSO`: the scene's connector list. */
  class ConnectorContainer {
    var connectors: seq<RegionConnector>

    constructor ()
      ensures connectors == []
    {
      connectors := [];
    }

    /** The invariant the editor's operations keep. */
    ghost predicate Valid()
      reads this
    {
      KeysUnique(connectors)
    }

    /** `AddConnector`: append unless a connector with the key is present. */
    method AddConnector(c: RegionConnector)
      modifies this
      ensures connectors == Added(old(connectors), c)
      ensures old(Valid()) ==> Valid()
    {
      var present := false;
      var i := 0;
      while i < |connectors|
        invariant 0 <= i <= |connectors|
        invariant present <==> exists j :: 0 <= j < i && Equals(connectors[j], c)
      {
        if Equals(connectors[i], c) {
          present := true;
        }
        i := i + 1;
      }
      AddedProperties(connectors, c);
      if !present {
        connectors := connectors + [c];
      }
    }

    /** `RemoveConnector` (`List.Remove`): find the first connector with the
      key and cut it out. */
    method RemoveConnector(c: RegionConnector)
      modifies this
      ensures connectors == RemoveFirst(old(connectors), c)
      ensures old(Valid()) ==> Valid()
    {
      var i := 0;
      while i < |connectors| && !Equals(connectors[i], c)
        invariant 0 <= i <= |connectors|
        invariant forall j :: 0 <= j < i ==> !Equals(connectors[j], c)
      {
        i := i + 1;
      }
      RemoveFirstAt(connectors, c, i);
      if Valid() {
        RemoveFirstIsWithout(connectors, c);
        WithoutMembers(connectors, [c]);
      }
      if i < |connectors| {
        connectors := connectors[..i] + connectors[i + 1..];
      }
    }

    /** The first loop of `OnRegionUpdated`: the stale connectors, in list
      order, once per clause that holds. */
    method CollectStale(region: RegionData) returns (toRemove: seq<RegionConnector>)
      ensures toRemove == Collected(connectors, region)
    {
      toRemove := [];
      var i := 0;
      while i < |connectors|
        invariant 0 <= i <= |connectors|
        invariant toRemove == Collected(connectors[..i], region)
      {
        var c := connectors[i];
        assert connectors[..i + 1][..i] == connectors[..i];
        if c.regionA == region && !region.ContainsCell(c.edgeA.cell) {
          toRemove := toRemove + [c];
        }
        if c.regionB == region && c.cellB.Some? && !region.ContainsCell(c.cellB.value) {
          toRemove := toRemove + [c];
        }
        i := i + 1;
      }
      assert connectors[..|connectors|] == connectors;
    }

    /** `OnRegionUpdated`: list the stale connectors, then remove each listed
      one with `List.Remove`. */
    method OnRegionUpdated(region: RegionData)
      modifies this
      ensures connectors == RemoveAll(old(connectors), Collected(old(connectors), region))
      ensures old(Valid()) ==> Valid() && connectors == KeepFresh(old(connectors), region)
    {
      var toRemove := CollectStale(region);
      ghost var before := connectors;
      var k := 0;
      while k < |toRemove|
        invariant 0 <= k <= |toRemove|
        invariant connectors == RemoveAll(before, toRemove[..k])
      {
        assert toRemove[..k + 1][..k] == toRemove[..k];
        RemoveConnector(toRemove[k]);
        k := k + 1;
      }
      assert toRemove[..|toRemove|] == toRemove;
      if KeysUnique(before) {
        OnRegionUpdatedKeepsFresh(before, region);
        KeepFreshProperties(before, region);
      }
    }
  }
}
