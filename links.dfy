/**
 * Link scanning of one fetched entry (the two nested `forEach` loops of
 * fetchEntryAndGetLinksRecursively): every field and every locale value
 * is looked at; a single link-shaped value and each element of an array
 * value are treated alike. A candidate is kept when its `sys.id` is
 * non-empty and not yet visited, and is bucketed by `sys.linkType`.
 *
 * The specification functions are written from the back so that they
 * follow the order in which the loops push IDs.
 */
module Links {
  import opened Content

  /** The IDs one link-shaped value contributes to the `kind` bucket. */
  function ItemLinks(item: Value, kind: string, visited: set<Id>): seq<Id>
  {
    if item.Link? && item.id != "" && item.id !in visited && item.linkType == kind then [item.id] else []
  }

  function ArrayLinks(items: seq<Value>, kind: string, visited: set<Id>): seq<Id>
  {
    if items == [] then []
    else ArrayLinks(items[..|items| - 1], kind, visited) + ItemLinks(items[|items| - 1], kind, visited)
  }

  /** A field value for one locale: an array is scanned element by element, anything else as one item. */
  function ValueLinks(v: Value, kind: string, visited: set<Id>): seq<Id>
  {
    if v.Array? then ArrayLinks(v.items, kind, visited) else ItemLinks(v, kind, visited)
  }

  function LocaleLinks(locales: seq<Localized>, kind: string, visited: set<Id>): seq<Id>
  {
    if locales == [] then []
    else LocaleLinks(locales[..|locales| - 1], kind, visited) + ValueLinks(locales[|locales| - 1].value, kind, visited)
  }

  /** The IDs the scan of an entry's fields pushes into the `kind` bucket, in push order. */
  function FieldLinks(fields: seq<Field>, kind: string, visited: set<Id>): seq<Id>
  {
    if fields == [] then []
    else FieldLinks(fields[..|fields| - 1], kind, visited) + LocaleLinks(fields[|fields| - 1].locales, kind, visited)
  }

  /** A value carries a link to `x` of the given kind: as itself, or as an element of an array. */
  predicate Carries(v: Value, x: Id, kind: string)
  {
    v == Link(x, kind) || (v.Array? && Link(x, kind) in v.items)
  }

  /** Some locale value of some field carries a link to `x` of the given kind. */
  ghost predicate LinkedFrom(fields: seq<Field>, x: Id, kind: string)
  {
    exists i, j :: 0 <= i < |fields| && 0 <= j < |fields[i].locales| && Carries(fields[i].locales[j].value, x, kind)
  }

  lemma {:induction false} ArrayLinksSpec(items: seq<Value>, kind: string, visited: set<Id>, x: Id)
    ensures x in ArrayLinks(items, kind, visited) <==> x != "" && x !in visited && Link(x, kind) in items
  {
    if items != [] {
      var init := items[..|items| - 1];
      ArrayLinksSpec(init, kind, visited, x);
      assert items == init + [items[|items| - 1]];
    }
  }

  lemma ValueLinksSpec(v: Value, kind: string, visited: set<Id>, x: Id)
    ensures x in ValueLinks(v, kind, visited) <==> x != "" && x !in visited && Carries(v, x, kind)
  {
    if v.Array? {
      ArrayLinksSpec(v.items, kind, visited, x);
    }
  }

  lemma {:induction false} LocaleLinksSpec(locales: seq<Localized>, kind: string, visited: set<Id>, x: Id)
    ensures x in LocaleLinks(locales, kind, visited) <==>
      x != "" && x !in visited && exists j :: 0 <= j < |locales| && Carries(locales[j].value, x, kind)
  {
    if locales != [] {
      var n := |locales| - 1;
      var init := locales[..n];
      LocaleLinksSpec(init, kind, visited, x);
      ValueLinksSpec(locales[n].value, kind, visited, x);
      assert LocaleLinks(locales, kind, visited) == LocaleLinks(init, kind, visited) + ValueLinks(locales[n].value, kind, visited);
      if exists j :: 0 <= j < |locales| && Carries(locales[j].value, x, kind) {
        var j :| 0 <= j < |locales| && Carries(locales[j].value, x, kind);
        if j < n {
          assert init[j] == locales[j];
        }
      }
      if exists j :: 0 <= j < |init| && Carries(init[j].value, x, kind) {
        var j :| 0 <= j < |init| && Carries(init[j].value, x, kind);
        assert init[j] == locales[j];
      }
    }
  }

  /** The scan keeps exactly the non-empty, unvisited IDs of the links of the given kind, wherever they sit. */
  lemma {:induction false} FieldLinksSpec(fields: seq<Field>, kind: string, visited: set<Id>, x: Id)
    ensures x in FieldLinks(fields, kind, visited) <==> x != "" && x !in visited && LinkedFrom(fields, x, kind)
  {
    if fields != [] {
      var n := |fields| - 1;
      var init := fields[..n];
      FieldLinksSpec(init, kind, visited, x);
      LocaleLinksSpec(fields[n].locales, kind, visited, x);
      if LinkedFrom(fields, x, kind) {
        var i, j :| 0 <= i < |fields| && 0 <= j < |fields[i].locales| && Carries(fields[i].locales[j].value, x, kind);
        if i < n {
          assert init[i] == fields[i];
        }
      }
      if LinkedFrom(init, x, kind) {
        var i, j :| 0 <= i < |init| && 0 <= j < |init[i].locales| && Carries(init[i].locales[j].value, x, kind);
        assert init[i] == fields[i];
      }
    }
  }

  /** Only the visited set decides which candidates are dropped: the scan against `visited` is the full scan minus `visited`. */
  lemma FieldLinksVisited(fields: seq<Field>, kind: string, visited: set<Id>)
    ensures Elems(FieldLinks(fields, kind, visited)) == Elems(FieldLinks(fields, kind, {})) - visited
  {
    forall x ensures x in FieldLinks(fields, kind, visited) <==> x in FieldLinks(fields, kind, {}) && x !in visited {
      FieldLinksSpec(fields, kind, visited, x);
      FieldLinksSpec(fields, kind, {}, x);
    }
  }

  /** A link is sorted into one bucket only: no ID is pushed as both an entry and an asset unless both kinds of link to it exist. */
  lemma BucketsDisjoint(fields: seq<Field>, visited: set<Id>, x: Id)
    requires x in FieldLinks(fields, ENTRY_LINK, visited) && x in FieldLinks(fields, ASSET_LINK, visited)
    ensures LinkedFrom(fields, x, ENTRY_LINK) && LinkedFrom(fields, x, ASSET_LINK)
  {
    FieldLinksSpec(fields, ENTRY_LINK, visited, x);
    FieldLinksSpec(fields, ASSET_LINK, visited, x);
  }

  /** One link-shaped value, as the callback tests it: a non-empty unvisited `sys.id`, then `sys.linkType`. */
  method ScanItem(item: Value, visited: set<Id>, entryIDs: seq<Id>, assetIDs: seq<Id>)
    returns (entryIDs': seq<Id>, assetIDs': seq<Id>)
    ensures entryIDs' == entryIDs + ItemLinks(item, ENTRY_LINK, visited)
    ensures assetIDs' == assetIDs + ItemLinks(item, ASSET_LINK, visited)
  {
    entryIDs', assetIDs' := entryIDs, assetIDs;
    if item.Link? && item.id != "" && item.id !in visited {
      if item.linkType == ENTRY_LINK {
        entryIDs' := entryIDs' + [item.id];
      } else if item.linkType == ASSET_LINK {
        assetIDs' := assetIDs' + [item.id];
      }
    }
  }

  /** The callback for one locale value: an array is walked element by element, anything else is one item. */
  method ScanValue(fieldValue: Value, visited: set<Id>, entryIDs: seq<Id>, assetIDs: seq<Id>)
    returns (entryIDs': seq<Id>, assetIDs': seq<Id>)
    ensures entryIDs' == entryIDs + ValueLinks(fieldValue, ENTRY_LINK, visited)
    ensures assetIDs' == assetIDs + ValueLinks(fieldValue, ASSET_LINK, visited)
  {
    if fieldValue.Array? {
      var items := fieldValue.items;
      entryIDs', assetIDs' := entryIDs, assetIDs;
      for m := 0 to |items|
        invariant entryIDs' == entryIDs + ArrayLinks(items[..m], ENTRY_LINK, visited)
        invariant assetIDs' == assetIDs + ArrayLinks(items[..m], ASSET_LINK, visited)
      {
        entryIDs', assetIDs' := ScanItem(items[m], visited, entryIDs', assetIDs');
        assert items[..m + 1][..m] == items[..m];
      }
      assert items[..|items|] == items;
    } else {
      entryIDs', assetIDs' := ScanItem(fieldValue, visited, entryIDs, assetIDs);
    }
  }

  /** The callback for one field: every locale value in turn. */
  method ScanField(field: Field, visited: set<Id>, entryIDs: seq<Id>, assetIDs: seq<Id>)
    returns (entryIDs': seq<Id>, assetIDs': seq<Id>)
    ensures entryIDs' == entryIDs + LocaleLinks(field.locales, ENTRY_LINK, visited)
    ensures assetIDs' == assetIDs + LocaleLinks(field.locales, ASSET_LINK, visited)
  {
    var locales := field.locales;
    entryIDs', assetIDs' := entryIDs, assetIDs;
    for j := 0 to |locales|
      invariant entryIDs' == entryIDs + LocaleLinks(locales[..j], ENTRY_LINK, visited)
      invariant assetIDs' == assetIDs + LocaleLinks(locales[..j], ASSET_LINK, visited)
    {
      entryIDs', assetIDs' := ScanValue(locales[j].value, visited, entryIDs', assetIDs');
      assert locales[..j + 1][..j] == locales[..j];
    }
    assert locales[..|locales|] == locales;
  }

  /**
   * The scan of a fetched entry: every field in turn, pushing entry links
   * into `entryIDs` and asset links into `assetIDs`.
   */
  method ScanLinks(fields: seq<Field>, visited: set<Id>) returns (entryIDs: seq<Id>, assetIDs: seq<Id>)
    ensures entryIDs == FieldLinks(fields, ENTRY_LINK, visited)
    ensures assetIDs == FieldLinks(fields, ASSET_LINK, visited)
  {
    entryIDs, assetIDs := [], [];
    for i := 0 to |fields|
      invariant entryIDs == FieldLinks(fields[..i], ENTRY_LINK, visited)
      invariant assetIDs == FieldLinks(fields[..i], ASSET_LINK, visited)
    {
      entryIDs, assetIDs := ScanField(fields[i], visited, entryIDs, assetIDs);
      assert fields[..i + 1][..i] == fields[..i];
    }
    assert fields[..|fields|] == fields;
  }
}
