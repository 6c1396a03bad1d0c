/** The per-batch property cache of the document writer.  Each property name gets
    an entry holding its id and its global sort order.  Within one document the
    ids handed out are 0, 1, 2, ... in the order the properties are first asked
    for, which the cache achieves by swapping entries of its id-indexed list. */
module Json {
  import opened Wrappers
  import opened PropertyNames

  /** The cache entry of a property; the three collections of the cache share it,
      so it is keyed here by its name (the interned Comparer). */
  datatype PropertyName = PropertyName(Comparer: Name, GlobalSortOrder: int, PropertyId: int)

  /** The invariant of the cache: each known name has one entry, whose PropertyId
      is its index in the id list; the sort-order list holds the same names; the
      first `discovered` ids are those of the current document; and, unless a name
      was added since the last Sort, the sort-order list is in name order and each
      entry's GlobalSortOrder is its position there. */
  ghost predicate Consistent(docPropNames: seq<Name>, sortOrder: seq<Name>, entries: map<Name, PropertyName>,
                             discovered: int, needsSorting: bool)
  {
    && Distinct(docPropNames)
    && Distinct(sortOrder)
    && multiset(sortOrder) == multiset(docPropNames)
    && (forall n :: n in entries <==> n in docPropNames)
    && (forall n :: n in entries ==> entries[n].Comparer == n)
    && (forall i :: 0 <= i < |docPropNames| ==>
          docPropNames[i] in entries && entries[docPropNames[i]].PropertyId == i)
    && 0 <= discovered <= |docPropNames|
    && (!needsSorting ==> Ranked(sortOrder, entries))
  }

  /** The list is in name order and each entry's GlobalSortOrder is its position in it. */
  ghost predicate Ranked(sortOrder: seq<Name>, entries: map<Name, PropertyName>)
  {
    && StrictlySorted(sortOrder)
    && forall i :: 0 <= i < |sortOrder| ==> sortOrder[i] in entries && entries[sortOrder[i]].GlobalSortOrder == i
  }

  /** The entry of a known name has that name's index as its id. */
  lemma IdIsIndex(docPropNames: seq<Name>, sortOrder: seq<Name>, entries: map<Name, PropertyName>,
                  discovered: int, needsSorting: bool, n: Name)
    requires Consistent(docPropNames, sortOrder, entries, discovered, needsSorting)
    requires n in entries
    ensures 0 <= entries[n].PropertyId < |docPropNames| && docPropNames[entries[n].PropertyId] == n
  {
    var j :| 0 <= j < |docPropNames| && docPropNames[j] == n;
  }

  /** Exchanging the entries of `prop` and of the name at slot `p` keeps the invariant. */
  lemma SwapConsistent(docPropNames: seq<Name>, sortOrder: seq<Name>, entries: map<Name, PropertyName>,
                       discovered: int, needsSorting: bool, prop: Name)
    requires Consistent(docPropNames, sortOrder, entries, discovered, needsSorting)
    requires prop in entries && discovered <= entries[prop].PropertyId
    ensures entries[prop].PropertyId < |docPropNames|
    ensures var k := entries[prop].PropertyId;
            var displaced := docPropNames[discovered];
            Consistent(docPropNames[discovered := prop][k := displaced], sortOrder,
                       entries[displaced := entries[displaced].(PropertyId := k)][prop := entries[prop].(PropertyId := discovered)],
                       discovered, needsSorting)
  {
    IdIsIndex(docPropNames, sortOrder, entries, discovered, needsSorting, prop);
    var k := entries[prop].PropertyId;
    var displaced := docPropNames[discovered];
    var doc' := docPropNames[discovered := prop][k := displaced];
    var entries' := entries[displaced := entries[displaced].(PropertyId := k)][prop := entries[prop].(PropertyId := discovered)];
    SwapKeepsNames(docPropNames, discovered, k);
    SwapKeepsIds(docPropNames, entries, discovered, k);
    Renumbered(docPropNames, sortOrder, entries, discovered, needsSorting, doc', entries');
  }

  /** The invariant survives a renumbering: the id list rearranged without losing or
      repeating a name, and the entries changed in their ids only, each id again the
      slot of its name. */
  lemma Renumbered(docPropNames: seq<Name>, sortOrder: seq<Name>, entries: map<Name, PropertyName>,
                   discovered: int, needsSorting: bool, doc': seq<Name>, entries': map<Name, PropertyName>)
    requires Consistent(docPropNames, sortOrder, entries, discovered, needsSorting)
    requires |doc'| == |docPropNames| && multiset(doc') == multiset(docPropNames) && Distinct(doc')
    requires entries'.Keys == entries.Keys
    requires forall n :: n in entries ==>
      entries'[n].Comparer == entries[n].Comparer && entries'[n].GlobalSortOrder == entries[n].GlobalSortOrder
    requires forall i :: 0 <= i < |doc'| ==> doc'[i] in entries' && entries'[doc'[i]].PropertyId == i
    ensures Consistent(doc', sortOrder, entries', discovered, needsSorting)
  {
    forall n
      ensures n in doc' <==> n in docPropNames
    {
      assert n in doc' <==> n in multiset(doc');
      assert n in docPropNames <==> n in multiset(docPropNames);
    }
  }

  /** Exchanging two slots of a list keeps the same names. */
  lemma SwapKeepsNames(docPropNames: seq<Name>, a: nat, b: nat)
    requires a < |docPropNames| && b < |docPropNames|
    ensures var doc' := docPropNames[a := docPropNames[b]][b := docPropNames[a]];
            multiset(doc') == multiset(docPropNames) && (Distinct(docPropNames) ==> Distinct(doc'))
  {
    var doc' := docPropNames[a := docPropNames[b]][b := docPropNames[a]];
    assert multiset(doc') == multiset(docPropNames);
    if Distinct(docPropNames) {
      forall i, j | 0 <= i < j < |doc'|
        ensures doc'[i] != doc'[j]
      {
        var i0 := if i == a then b else if i == b then a else i;
        var j0 := if j == a then b else if j == b then a else j;
        assert doc'[i] == docPropNames[i0] && doc'[j] == docPropNames[j0];
      }
    }
  }

  /** After the exchange of slots `a` and `b`, renumbering the two entries keeps each
      id equal to its slot. */
  lemma SwapKeepsIds(docPropNames: seq<Name>, entries: map<Name, PropertyName>, a: nat, b: nat)
    requires a < |docPropNames| && b < |docPropNames| && Distinct(docPropNames)
    requires forall i :: 0 <= i < |docPropNames| ==>
      docPropNames[i] in entries && entries[docPropNames[i]].PropertyId == i
    ensures var x, y := docPropNames[a], docPropNames[b];
            var doc' := docPropNames[a := y][b := x];
            var entries' := entries[x := entries[x].(PropertyId := b)][y := entries[y].(PropertyId := a)];
            && entries'.Keys == entries.Keys
            && (forall n :: n in entries ==>
                  entries'[n].Comparer == entries[n].Comparer && entries'[n].GlobalSortOrder == entries[n].GlobalSortOrder)
            && (forall i :: 0 <= i < |doc'| ==> doc'[i] in entries' && entries'[doc'[i]].PropertyId == i)
  {
    var x, y := docPropNames[a], docPropNames[b];
    var doc' := docPropNames[a := y][b := x];
    var entries' := entries[x := entries[x].(PropertyId := b)][y := entries[y].(PropertyId := a)];
    forall i | 0 <= i < |doc'|
      ensures doc'[i] in entries' && entries'[doc'[i]].PropertyId == i
    {
      if i != a && i != b {
        assert doc'[i] == docPropNames[i];
        assert docPropNames[i] != x && docPropNames[i] != y;
      }
    }
  }

  /** Every entry of `before` is still there with the same GlobalSortOrder. */
  ghost predicate SameRanks(before: map<Name, PropertyName>, after: map<Name, PropertyName>)
  {
    forall n :: n in before ==> n in after && after[n].GlobalSortOrder == before[n].GlobalSortOrder
  }

  /** A known name is among the current document's properties exactly when its
      id is below `discovered`. */
  lemma InDocumentIff(docPropNames: seq<Name>, sortOrder: seq<Name>, entries: map<Name, PropertyName>,
                      discovered: int, needsSorting: bool, n: Name)
    requires Consistent(docPropNames, sortOrder, entries, discovered, needsSorting)
    ensures n in docPropNames[..discovered] <==> n in entries && entries[n].PropertyId < discovered
  {
    if n in docPropNames[..discovered] {
      var j :| 0 <= j < discovered && docPropNames[..discovered][j] == n;
      assert docPropNames[j] == n;
    }
    if n in entries && entries[n].PropertyId < discovered {
      IdIsIndex(docPropNames, sortOrder, entries, discovered, needsSorting, n);
      assert docPropNames[..discovered][entries[n].PropertyId] == n;
    }
  }

  /** Adding a new name at the end of both lists, with a fresh entry, keeps the invariant. */
  lemma AddConsistent(docPropNames: seq<Name>, sortOrder: seq<Name>, entries: map<Name, PropertyName>,
                      discovered: int, needsSorting: bool, n: Name)
    requires Consistent(docPropNames, sortOrder, entries, discovered, needsSorting)
    requires n !in entries
    ensures Consistent(docPropNames + [n], sortOrder + [n], entries[n := PropertyName(n, -1, |docPropNames|)], discovered, true)
  {
    assert n !in multiset(sortOrder);
    assert n !in sortOrder;
  }

  /** Once ranked, the GlobalSortOrder of the known names orders them by name. */
  lemma RankIsNameOrder(docPropNames: seq<Name>, sortOrder: seq<Name>, entries: map<Name, PropertyName>,
                        discovered: int, a: Name, b: Name)
    requires Consistent(docPropNames, sortOrder, entries, discovered, false)
    requires a in entries && b in entries
    ensures entries[a].GlobalSortOrder < entries[b].GlobalSortOrder <==> Below(a, b)
    ensures entries[a].GlobalSortOrder == entries[b].GlobalSortOrder <==> a == b
  {
    assert a in multiset(sortOrder) && b in multiset(sortOrder);
    var i :| 0 <= i < |sortOrder| && sortOrder[i] == a;
    var j :| 0 <= j < |sortOrder| && sortOrder[j] == b;
    if i == j {
      BelowIrreflexive(a);
    } else if j < i {
      BelowAsymmetric(b, a);
    }
  }

  /** Replacing the sort-order list by a name-sorted arrangement of the same names,
      with every entry ranked by its position there, restores the invariant with
      the sort order up to date. */
  lemma RankedConsistent(docPropNames: seq<Name>, sortOrder: seq<Name>, entries: map<Name, PropertyName>,
                         sorted: seq<Name>, ranked: map<Name, PropertyName>, discovered: int)
    requires Consistent(docPropNames, sortOrder, entries, discovered, true)
    requires multiset(sorted) == multiset(sortOrder) && StrictlySorted(sorted)
    requires ranked.Keys == entries.Keys
    requires forall n :: n in ranked ==>
      ranked[n].PropertyId == entries[n].PropertyId && ranked[n].Comparer == entries[n].Comparer
    requires forall j :: 0 <= j < |sorted| ==> sorted[j] in ranked && ranked[sorted[j]].GlobalSortOrder == j
    ensures Consistent(docPropNames, sorted, ranked, discovered, false)
  {
    forall i, j | 0 <= i < j < |sorted|
      ensures sorted[i] != sorted[j]
    {
      BelowIrreflexive(sorted[i]);
    }
  }

  /** An up-to-date sort-order list is the names in name order, whichever way it
      was sorted. */
  lemma RankedIsSortByName(docPropNames: seq<Name>, sortOrder: seq<Name>, entries: map<Name, PropertyName>, discovered: int)
    requires Consistent(docPropNames, sortOrder, entries, discovered, false)
    ensures sortOrder == SortByName(docPropNames)
  {
    SortByNameSorted(docPropNames);
    SortedArrangementUnique(sortOrder, SortByName(docPropNames));
  }

  class CachedProperties {
    var docPropNames: seq<Name>                        // _docPropNames, indexed by PropertyId
    var propertiesSortOrder: seq<Name>                 // _propertiesSortOrder
    var propertyNameToId: map<Name, PropertyName>      // _propertyNameToId
    var propertiesNeedSorting: bool                    // _propertiesNeedSorting
    var PropertiesDiscovered: int

    ghost predicate Valid()
      reads this
    {
      Consistent(docPropNames, propertiesSortOrder, propertyNameToId, PropertiesDiscovered, propertiesNeedSorting)
    }

    /** The properties met so far in the current document, in the order first asked for. */
    ghost function DocumentProperties(): seq<Name>
      reads this
      requires Valid()
    {
      docPropNames[..PropertiesDiscovered]
    }

    constructor ()
      ensures Valid()
      ensures docPropNames == [] && propertiesSortOrder == [] && propertyNameToId == map[]
      ensures PropertiesDiscovered == 0 && !propertiesNeedSorting
    {
      docPropNames := [];
      propertiesSortOrder := [];
      propertyNameToId := map[];
      propertiesNeedSorting := false;
      PropertiesDiscovered := 0;
    }

    /** The name stored under an id, or None when the id is out of range (the list
        indexer throws). */
    function GetProperty(index: int): (r: Option<Name>)
      reads this
      requires Valid()
      ensures r.Some? <==> 0 <= index < |docPropNames|
      ensures r.Some? ==> r.value in propertyNameToId && propertyNameToId[r.value].PropertyId == index
    {
      if 0 <= index < |docPropNames| then Some(propertyNameToId[docPropNames[index]].Comparer) else None
    }

    /** Moves `prop` to slot PropertiesDiscovered of the id list and the entry that
        was there to the slot `prop` left, renumbering both entries. */
    method SwapPropertyIds(prop: Name) returns (moved: PropertyName)
      requires Valid() && prop in propertyNameToId
      requires PropertiesDiscovered <= propertyNameToId[prop].PropertyId
      modifies this
      ensures Valid()
      ensures |docPropNames| == old(|docPropNames|) && PropertiesDiscovered == old(PropertiesDiscovered)
      ensures propertyNameToId.Keys == old(propertyNameToId.Keys)
      ensures old(propertyNameToId[prop].PropertyId) < |docPropNames|
      ensures docPropNames ==
        old(docPropNames)[PropertiesDiscovered := prop][old(propertyNameToId[prop].PropertyId) := old(docPropNames[PropertiesDiscovered])]
      ensures docPropNames[..PropertiesDiscovered] == old(docPropNames[..PropertiesDiscovered])
      ensures moved == propertyNameToId[prop] && moved.PropertyId == PropertiesDiscovered
      ensures SameRanks(old(propertyNameToId), propertyNameToId)
      ensures propertiesSortOrder == old(propertiesSortOrder)
      ensures propertiesNeedSorting == old(propertiesNeedSorting)
    {
      var d := PropertiesDiscovered;
      IdIsIndex(docPropNames, propertiesSortOrder, propertyNameToId, d, propertiesNeedSorting, prop);
      SwapConsistent(docPropNames, propertiesSortOrder, propertyNameToId, d, propertiesNeedSorting, prop);
      var names, ids;
      names, ids, moved := Exchange(docPropNames, propertyNameToId, d, prop);
      assert names[..d] == docPropNames[..d];
      docPropNames, propertyNameToId := names, ids;
    }

    /** The steps of SwapPropertyIds on the two collections: `prop` moves into slot
        `d`, the name it displaces moves to `prop`'s old slot, and the two entries
        take each other's id while keeping their sort order. */
    static method Exchange(names: seq<Name>, ids: map<Name, PropertyName>, d: int, prop: Name)
      returns (names': seq<Name>, ids': map<Name, PropertyName>, moved: PropertyName)
      requires 0 <= d < |names| && names[d] in ids && prop in ids
      requires 0 <= ids[prop].PropertyId < |names| && names[ids[prop].PropertyId] == prop
      ensures var k := ids[prop].PropertyId;
              var displaced := names[d];
              && names' == names[d := prop][k := displaced]
              && ids' == ids[displaced := ids[displaced].(PropertyId := k)][prop := ids[prop].(PropertyId := d)]
      ensures SameRanks(ids, ids') && ids'.Keys == ids.Keys
      ensures moved == ids'[prop] && moved.PropertyId == d
    {
      var k := ids[prop].PropertyId;
      var displaced := names[d];      // `old` in the source
      names' := names[d := names[k]];
      ids' := ids[displaced := ids[displaced].(PropertyId := ids[names'[d]].PropertyId)];
      names' := names'[ids'[displaced].PropertyId := displaced];
      var current := names'[d];
      ids' := ids'[current := ids'[current].(PropertyId := d)];
      moved := ids'[current];
    }

    /** The id of a property in the current document.  A property not yet met in
        this document takes the next id, PropertiesDiscovered, swapping into that
        slot if its cached id was elsewhere; one already met keeps its id. */
    method GetPropertyId(propName: Name) returns (id: int)
      requires Valid()
      modifies this
      ensures Valid()
      // the id is the property's slot: GetProperty inverts it
      ensures GetProperty(id) == Some(propName)
      ensures propertyNameToId.Keys == old(propertyNameToId.Keys) + {propName}
      ensures SameRanks(old(propertyNameToId), propertyNameToId)
      // first met in this document: the next id, appended to the document's properties
      ensures propName !in old(DocumentProperties()) ==>
        && id == old(PropertiesDiscovered)
        && DocumentProperties() == old(DocumentProperties()) + [propName]
      // met before in this document: the same id, and nothing changes
      ensures propName in old(DocumentProperties()) ==>
        && propName in old(propertyNameToId)
        && id == old(propertyNameToId[propName].PropertyId)
        && unchanged(this)
      // a name never seen before enters all three collections
      ensures propName !in old(propertyNameToId) ==>
        && multiset(docPropNames) == old(multiset(docPropNames)) + multiset{propName}
        && propertiesSortOrder == old(propertiesSortOrder) + [propName]
        && propertyNameToId[propName].GlobalSortOrder == -1
        && propertiesNeedSorting
      // a cached name only moves within the id list
      ensures propName in old(propertyNameToId) ==>
        && multiset(docPropNames) == old(multiset(docPropNames))
        && propertiesSortOrder == old(propertiesSortOrder)
        && propertiesNeedSorting == old(propertiesNeedSorting)
    {
      InDocumentIff(docPropNames, propertiesSortOrder, propertyNameToId, PropertiesDiscovered, propertiesNeedSorting, propName);
      if propName !in propertyNameToId {
        id := DiscoverNew(propName);
      } else if propertyNameToId[propName].PropertyId >= PropertiesDiscovered {
        id := DiscoverCached(propName);
      } else {
        assert propertyNameToId.Keys + {propName} == propertyNameToId.Keys;
        id := propertyNameToId[propName].PropertyId;
        IdIsIndex(docPropNames, propertiesSortOrder, propertyNameToId, PropertiesDiscovered, propertiesNeedSorting, propName);
      }
    }

    /** The branch of GetPropertyId for a name never seen before: it gets an entry
        at the end of both lists, is swapped into slot PropertiesDiscovered when
        it landed further out, and takes that id. */
    method DiscoverNew(propName: Name) returns (id: int)
      requires Valid() && propName !in propertyNameToId
      modifies this
      ensures Valid()
      ensures id == old(PropertiesDiscovered) && GetProperty(id) == Some(propName)
      ensures DocumentProperties() == old(DocumentProperties()) + [propName]
      ensures propertyNameToId.Keys == old(propertyNameToId.Keys) + {propName}
      ensures SameRanks(old(propertyNameToId), propertyNameToId)
      ensures multiset(docPropNames) == old(multiset(docPropNames)) + multiset{propName}
      ensures propertiesSortOrder == old(propertiesSortOrder) + [propName]
      ensures propertyNameToId[propName].GlobalSortOrder == -1 && propertiesNeedSorting
    {
      var prop := AddProperty(propName);
      assert propertyNameToId.Keys == old(propertyNameToId.Keys) + {propName};
      assert multiset(docPropNames) == old(multiset(docPropNames)) + multiset{propName};
      if |docPropNames| > PropertiesDiscovered + 1 {
        prop := SwapPropertyIds(propName);
      }
      TakeNext(propName);
      id := prop.PropertyId;
      IdIsIndex(docPropNames, propertiesSortOrder, propertyNameToId, PropertiesDiscovered, propertiesNeedSorting, propName);
    }

    /** The branch of GetPropertyId for a cached name not yet met in this document:
        it is swapped into slot PropertiesDiscovered unless already there, and
        takes that id. */
    method DiscoverCached(propName: Name) returns (id: int)
      requires Valid() && propName in propertyNameToId
      requires propertyNameToId[propName].PropertyId >= PropertiesDiscovered
      modifies this
      ensures Valid()
      ensures id == old(PropertiesDiscovered) && GetProperty(id) == Some(propName)
      ensures DocumentProperties() == old(DocumentProperties()) + [propName]
      ensures propertyNameToId.Keys == old(propertyNameToId.Keys)
      ensures SameRanks(old(propertyNameToId), propertyNameToId)
      ensures multiset(docPropNames) == old(multiset(docPropNames))
      ensures propertiesSortOrder == old(propertiesSortOrder) && propertiesNeedSorting == old(propertiesNeedSorting)
    {
      var prop := propertyNameToId[propName];
      if prop.PropertyId != PropertiesDiscovered {
        prop := SwapPropertyIds(propName);
      }
      TakeNext(propName);
      id := prop.PropertyId;
      IdIsIndex(docPropNames, propertiesSortOrder, propertyNameToId, PropertiesDiscovered, propertiesNeedSorting, propName);
    }

    /** Creates the entry of a name never seen before, with the next free id, and
        appends it to both lists; the sort order is now stale. */
    method AddProperty(propName: Name) returns (prop: PropertyName)
      requires Valid() && propName !in propertyNameToId
      modifies this
      ensures Valid()
      ensures prop == PropertyName(propName, -1, old(|docPropNames|)) && propertyNameToId == old(propertyNameToId)[propName := prop]
      ensures SameRanks(old(propertyNameToId), propertyNameToId)
      ensures docPropNames == old(docPropNames) + [propName] && propertiesSortOrder == old(propertiesSortOrder) + [propName]
      ensures propertiesNeedSorting && PropertiesDiscovered == old(PropertiesDiscovered)
      ensures DocumentProperties() == old(DocumentProperties())
    {
      var propIndex := |docPropNames|;
      prop := PropertyName(propName, -1, propIndex);   // Comparer: the interned name
      AddConsistent(docPropNames, propertiesSortOrder, propertyNameToId, PropertiesDiscovered, propertiesNeedSorting, propName);
      docPropNames := docPropNames + [prop.Comparer];
      propertiesSortOrder := propertiesSortOrder + [prop.Comparer];
      propertyNameToId := propertyNameToId[propName := prop];
      propertiesNeedSorting := true;
      assert docPropNames[..PropertiesDiscovered] == old(docPropNames[..PropertiesDiscovered]);
    }

    /** Counts a property as met in the current document once it sits in slot
        PropertiesDiscovered: the document's properties grow by that name. */
    method TakeNext(propName: Name)
      requires Valid() && propName in propertyNameToId && propertyNameToId[propName].PropertyId == PropertiesDiscovered
      modifies this
      ensures Valid()
      ensures DocumentProperties() == old(DocumentProperties()) + [propName]
      ensures PropertiesDiscovered == old(PropertiesDiscovered) + 1
      ensures docPropNames == old(docPropNames) && propertiesSortOrder == old(propertiesSortOrder)
      ensures propertyNameToId == old(propertyNameToId) && propertiesNeedSorting == old(propertiesNeedSorting)
    {
      IdIsIndex(docPropNames, propertiesSortOrder, propertyNameToId, PropertiesDiscovered, propertiesNeedSorting, propName);
      PropertiesDiscovered := PropertiesDiscovered + 1;
      assert docPropNames[..PropertiesDiscovered] == docPropNames[..PropertiesDiscovered - 1] + [propName];
    }

    /** Ranks the properties by name: the sort-order list is sorted by name and each
        entry's GlobalSortOrder set to its position there.  Skipped when no name was
        added since the last Sort. */
    method Sort()
      requires Valid()
      modifies this
      ensures Valid() && !propertiesNeedSorting
      ensures Ranked(propertiesSortOrder, propertyNameToId)
      ensures propertiesSortOrder == SortByName(docPropNames)
      ensures docPropNames == old(docPropNames) && PropertiesDiscovered == old(PropertiesDiscovered)
      ensures propertyNameToId.Keys == old(propertyNameToId.Keys)
      ensures forall n :: n in propertyNameToId ==> propertyNameToId[n].PropertyId == old(propertyNameToId[n].PropertyId)
      ensures !old(propertiesNeedSorting) ==> unchanged(this)
    {
      if propertiesNeedSorting {
        var sorted := SortByName(propertiesSortOrder);   // List.Sort by the names' byte order
        SortByNameSorted(propertiesSortOrder);
        forall j | 0 <= j < |sorted|
          ensures sorted[j] in propertyNameToId
        {
          assert sorted[j] in multiset(docPropNames);
        }
        var ids := AssignSortOrder(sorted, propertyNameToId);
        RankedConsistent(docPropNames, propertiesSortOrder, propertyNameToId, sorted, ids, PropertiesDiscovered);
        propertiesSortOrder, propertyNameToId, propertiesNeedSorting := sorted, ids, false;
      }
      RankedIsSortByName(docPropNames, propertiesSortOrder, propertyNameToId, PropertiesDiscovered);
    }

    /** The loop of Sort: each entry's GlobalSortOrder becomes the position of its
        name in the sorted list, and nothing else in the entries changes. */
    static method AssignSortOrder(sorted: seq<Name>, entries: map<Name, PropertyName>)
      returns (ids: map<Name, PropertyName>)
      requires StrictlySorted(sorted)
      requires forall j :: 0 <= j < |sorted| ==> sorted[j] in entries
      ensures ids.Keys == entries.Keys
      ensures forall n :: n in ids ==>
        ids[n].PropertyId == entries[n].PropertyId && ids[n].Comparer == entries[n].Comparer
      ensures forall j :: 0 <= j < |sorted| ==> ids[sorted[j]].GlobalSortOrder == j
    {
      ids := entries;
      for i := 0 to |sorted|
        invariant ids.Keys == entries.Keys
        invariant forall n :: n in ids ==>
          && ids[n].PropertyId == entries[n].PropertyId
          && ids[n].Comparer == entries[n].Comparer
        invariant forall j :: 0 <= j < i ==> ids[sorted[j]].GlobalSortOrder == j
      {
        forall j | 0 <= j < i
          ensures sorted[j] != sorted[i]
        {
          BelowIrreflexive(sorted[i]);
        }
        ids := ids[sorted[i] := ids[sorted[i]].(GlobalSortOrder := i)];
      }
    }

    /** IComparer.Compare on property ids: the difference of their entries'
        GlobalSortOrder, or None when an id is out of range (the list indexer
        throws).  Once sorted, it orders ids by the names they stand for. */
    function Compare(x: int, y: int): (r: Option<int>)
      reads this
      requires Valid()
      ensures r.Some? <==> 0 <= x < |docPropNames| && 0 <= y < |docPropNames|
      ensures r.Some? && !propertiesNeedSorting ==>
        && (r.value < 0 <==> Below(docPropNames[x], docPropNames[y]))
        && (r.value == 0 <==> x == y)
    {
      if 0 <= x < |docPropNames| && 0 <= y < |docPropNames| then
        var a := docPropNames[x];
        var b := docPropNames[y];
        var difference := propertyNameToId[a].GlobalSortOrder - propertyNameToId[b].GlobalSortOrder;
        if propertiesNeedSorting then Some(difference)
        else
          RankIsNameOrder(docPropNames, propertiesSortOrder, propertyNameToId, PropertiesDiscovered, a, b);
          Some(difference)
      else None
    }

    /** Starts a new document: no property of it has been met yet. */
    method NewDocument()
      requires Valid()
      modifies this
      ensures Valid() && DocumentProperties() == []
      ensures docPropNames == old(docPropNames) && propertiesSortOrder == old(propertiesSortOrder)
      ensures propertyNameToId == old(propertyNameToId) && propertiesNeedSorting == old(propertiesNeedSorting)
    {
      PropertiesDiscovered := 0;
    }
  }
}
