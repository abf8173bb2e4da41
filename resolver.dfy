/**
 * The dependency-closure resolver: starting from root IDs it fetches
 * each not-yet-visited ID (as an entry, else as an asset), scans a
 * fetched entry's fields for links, and expands every linked entry in
 * turn. Linked assets are recorded without being fetched. It returns the
 * deduplicated entry and asset IDs, or fails as a whole on the first ID
 * that is neither an entry nor an asset.
 */
module Resolver {
  import opened Wrappers
  import opened Content
  import opened Links

  /**
   * One environment of the remote store: `getEntry` succeeds exactly on
   * the keys of `entries` (yielding the entry's fields), `getAsset`
   * exactly on `assets`.
   */
  datatype Environment = Environment(entries: map<Id, seq<Field>>, assets: set<Id>)

  /** What looking up an ID yields, `getEntry` being tried before `getAsset`. */
  datatype Resource = EntryRes(fields: seq<Field>) | AssetRes | Missing

  function Fetch(env: Environment, id: Id): (res: Resource)
    ensures res.EntryRes? <==> id in env.entries
    ensures res.EntryRes? ==> res.fields == env.entries[id]
    ensures res.AssetRes? <==> id !in env.entries && id in env.assets
    ensures res.Missing? <==> id !in env.entries && id !in env.assets
  {
    if id in env.entries then EntryRes(env.entries[id])
    else if id in env.assets then AssetRes
    else Missing
  }

  /** The error that aborts the whole resolution, naming the ID that did not resolve. */
  datatype LookupError = LookupError(id: Id)

  const LOOKUP_MESSAGE: string := "A system ID you provided doesn't exist as an entry or asset: "

  function Message(e: LookupError): (m: string)
    ensures |m| == |LOOKUP_MESSAGE| + |e.id|
    ensures m[..|LOOKUP_MESSAGE|] == LOOKUP_MESSAGE && m[|LOOKUP_MESSAGE|..] == e.id
  {
    LOOKUP_MESSAGE + e.id
  }

  /** What one expansion returns: its `entryIDs` and `assetIDs` arrays. */
  datatype Found = Found(entryIDs: seq<Id>, assetIDs: seq<Id>)

  /** What the resolver returns: `entries` and `assets`. */
  datatype Gathered = Gathered(entries: seq<Id>, assets: seq<Id>)

  /** The targets of the `kind` links of an entry's fields (non-empty IDs only). */
  function LinkSet(fields: seq<Field>, kind: string): set<Id>
  {
    Elems(FieldLinks(fields, kind, {}))
  }

  /** The IDs an ID's entry links to as entries; empty unless it resolves to an entry. */
  function EntryLinksOf(env: Environment, y: Id): set<Id>
  {
    match Fetch(env, y)
    case EntryRes(fields) => LinkSet(fields, ENTRY_LINK)
    case _ => {}
  }

  /** The IDs an ID's entry links to as assets; empty unless it resolves to an entry. */
  function AssetLinksOf(env: Environment, y: Id): set<Id>
  {
    match Fetch(env, y)
    case EntryRes(fields) => LinkSet(fields, ASSET_LINK)
    case _ => {}
  }

  /** Every ID some entry of the store links to as an entry: a finite bound on what the traversal can visit besides its start. */
  ghost function EntryTargets(env: Environment): set<Id>
  {
    set y, x | y in env.entries && x in LinkSet(env.entries[y], ENTRY_LINK) :: x
  }

  /** The IDs the members of `s` link to as entries. */
  ghost function Successors(env: Environment, s: set<Id>): set<Id>
  {
    set y, x | y in s && x in EntryLinksOf(env, y) :: x
  }

  lemma SuccessorsIntro(env: Environment, s: set<Id>, y: Id, x: Id)
    requires y in s && x in EntryLinksOf(env, y)
    ensures x in Successors(env, s)
  {
  }

  /** The IDs reachable from a root through at most `n` entry links (each taken out of an ID that resolves to an entry). */
  ghost function Within(env: Environment, roots: seq<Id>, n: nat): set<Id>
  {
    if n == 0 then Elems(roots)
    else Within(env, roots, n - 1) + Successors(env, Within(env, roots, n - 1))
  }

  ghost predicate Reachable(env: Environment, roots: seq<Id>, x: Id)
  {
    exists n: nat :: x in Within(env, roots, n)
  }

  /** A set closed under following entry links out of its entries. */
  ghost predicate Closed(env: Environment, s: set<Id>)
  {
    forall y :: y in s ==> EntryLinksOf(env, y) <= s
  }

  lemma ReachableStep(env: Environment, roots: seq<Id>, y: Id, x: Id)
    requires Reachable(env, roots, y) && x in EntryLinksOf(env, y)
    ensures Reachable(env, roots, x)
  {
    var n: nat :| y in Within(env, roots, n);
    SuccessorsIntro(env, Within(env, roots, n), y, x);
    assert x in Within(env, roots, n + 1);
  }

  lemma {:induction false} WithinClosed(env: Environment, roots: seq<Id>, s: set<Id>, n: nat)
    requires Elems(roots) <= s && Closed(env, s)
    ensures Within(env, roots, n) <= s
  {
    if n > 0 {
      WithinClosed(env, roots, s, n - 1);
    }
  }

  /** Everything reachable lies in every closed set that holds the roots. */
  lemma ClosedHoldsReachable(env: Environment, roots: seq<Id>, s: set<Id>, x: Id)
    requires Elems(roots) <= s && Closed(env, s) && Reachable(env, roots, x)
    ensures x in s
  {
    var n: nat :| x in Within(env, roots, n);
    WithinClosed(env, roots, s, n);
  }

  lemma {:induction false} WithinBounded(env: Environment, roots: seq<Id>, n: nat)
    ensures Within(env, roots, n) <= Elems(roots) + EntryTargets(env)
  {
    if n > 0 {
      WithinBounded(env, roots, n - 1);
      forall x | x in Successors(env, Within(env, roots, n - 1)) ensures x in EntryTargets(env) {
        var y :| y in Within(env, roots, n - 1) && x in EntryLinksOf(env, y);
        assert y in env.entries;
      }
    }
  }

  /** The reachable IDs as one (finite) set. */
  ghost function ReachSet(env: Environment, roots: seq<Id>): set<Id>
  {
    set x | x in Elems(roots) + EntryTargets(env) && Reachable(env, roots, x)
  }

  lemma ReachSetMember(env: Environment, roots: seq<Id>, x: Id)
    ensures x in ReachSet(env, roots) <==> Reachable(env, roots, x)
  {
    if Reachable(env, roots, x) {
      var n: nat :| x in Within(env, roots, n);
      WithinBounded(env, roots, n);
    }
  }

  lemma VisitedInReach(env: Environment, roots: seq<Id>, v: set<Id>)
    requires forall x :: x in v ==> Reachable(env, roots, x)
    ensures v <= ReachSet(env, roots)
  {
    forall x | x in v ensures x in ReachSet(env, roots) {
      ReachSetMember(env, roots, x);
    }
  }

  /**
   * The IDs reachable from `c` through at most `n` entry links while
   * staying outside `vb`: what one expansion of `c` may visit when `vb`
   * is the visited set at its start.
   */
  ghost function Below(env: Environment, c: Id, vb: set<Id>, n: nat): set<Id>
  {
    if n == 0 then (if c in vb then {} else {c})
    else Below(env, c, vb, n - 1) + (Successors(env, Below(env, c, vb, n - 1)) - vb)
  }

  ghost predicate ReachableFrom(env: Environment, c: Id, vb: set<Id>, x: Id)
  {
    exists n: nat :: x in Below(env, c, vb, n)
  }

  /** The IDs reachable from `c` outside `vb`, as one (finite) set. */
  ghost function ReachFrom(env: Environment, c: Id, vb: set<Id>): set<Id>
  {
    set x | x in {c} + EntryTargets(env) && ReachableFrom(env, c, vb, x)
  }

  lemma {:induction false} BelowBounded(env: Environment, c: Id, vb: set<Id>, n: nat)
    ensures Below(env, c, vb, n) <= {c} + EntryTargets(env)
  {
    if n > 0 {
      BelowBounded(env, c, vb, n - 1);
      forall x | x in Successors(env, Below(env, c, vb, n - 1)) ensures x in EntryTargets(env) {
        var y :| y in Below(env, c, vb, n - 1) && x in EntryLinksOf(env, y);
        assert y in env.entries;
      }
    }
  }

  lemma ReachFromMember(env: Environment, c: Id, vb: set<Id>, x: Id)
    ensures x in ReachFrom(env, c, vb) <==> ReachableFrom(env, c, vb, x)
  {
    if ReachableFrom(env, c, vb, x) {
      var n: nat :| x in Below(env, c, vb, n);
      BelowBounded(env, c, vb, n);
    }
  }

  /** An entry link out of an ID reachable from `c` outside `vb`, to an ID outside `vb`, stays reachable. */
  lemma ReachFromStep(env: Environment, c: Id, vb: set<Id>, y: Id, x: Id)
    requires y in ReachFrom(env, c, vb) && x in EntryLinksOf(env, y) && x !in vb
    ensures x in ReachFrom(env, c, vb)
  {
    ReachFromMember(env, c, vb, y);
    var n: nat :| y in Below(env, c, vb, n);
    SuccessorsIntro(env, Below(env, c, vb, n), y, x);
    assert x in Below(env, c, vb, n + 1);
    ReachFromMember(env, c, vb, x);
  }

  /** A set closed under following entry links out of its entries, except to IDs in `vb`. */
  ghost predicate ClosedOutside(env: Environment, s: set<Id>, vb: set<Id>)
  {
    forall y :: y in s ==> EntryLinksOf(env, y) - vb <= s
  }

  lemma {:induction false} BelowClosed(env: Environment, e: Id, vb: set<Id>, s: set<Id>, n: nat)
    requires (e in vb || e in s) && ClosedOutside(env, s, vb)
    ensures Below(env, e, vb, n) <= s
  {
    if n > 0 {
      BelowClosed(env, e, vb, s, n - 1);
    }
  }

  lemma ReachFromClosed(env: Environment, c: Id, v0: set<Id>)
    ensures ClosedOutside(env, ReachFrom(env, c, v0), v0)
  {
    forall y, x | y in ReachFrom(env, c, v0) && x in EntryLinksOf(env, y) && x !in v0
      ensures x in ReachFrom(env, c, v0)
    {
      ReachFromStep(env, c, v0, y, x);
    }
  }

  /** Transitivity: what `e` reaches outside `vb` is reached by `c` outside `v0` when `e` is, and `vb` holds `v0`. */
  lemma ReachFromTrans(env: Environment, c: Id, v0: set<Id>, e: Id, vb: set<Id>)
    requires v0 <= vb && e in ReachFrom(env, c, v0)
    ensures ReachFrom(env, e, vb) <= ReachFrom(env, c, v0)
  {
    var s := ReachFrom(env, c, v0);
    ReachFromClosed(env, c, v0);
    assert ClosedOutside(env, s, vb);
    forall x | x in ReachFrom(env, e, vb) ensures x in s {
      ReachFromMember(env, e, vb, x);
      var n: nat :| x in Below(env, e, vb, n);
      BelowClosed(env, e, vb, s, n);
    }
  }

  lemma ReachFromStart(env: Environment, c: Id, vb: set<Id>)
    requires c !in vb
    ensures c in ReachFrom(env, c, vb)
  {
    assert c in Below(env, c, vb, 0);
    ReachFromMember(env, c, vb, c);
  }

  /** Every ID visited since `v0` has all its entry links inside `v`. */
  ghost predicate CompleteSince(env: Environment, v0: set<Id>, v: set<Id>)
  {
    forall y :: y in v && y !in v0 ==> EntryLinksOf(env, y) <= v
  }

  /**
   * The asset IDs collected since `v0` cover what they must: every ID
   * visited since then that resolved to an asset, and every asset link of
   * an entry visited since then unless that target is itself visited.
   */
  ghost predicate AssetsCovered(env: Environment, v0: set<Id>, v: set<Id>, assets: seq<Id>)
  {
    && (forall y :: y in v && y !in v0 && Fetch(env, y).AssetRes? ==> y in assets)
    && (forall y, a :: y in v && y !in v0 && a in AssetLinksOf(env, y) ==> a in assets || a in v)
  }

  /** Every collected asset ID is an ID visited since `v0` that resolved to an asset, or an asset link of an entry visited since then. */
  ghost predicate AssetsJustified(env: Environment, v0: set<Id>, v: set<Id>, assets: seq<Id>)
  {
    forall a :: a in assets ==>
      (a in v && a !in v0 && Fetch(env, a).AssetRes?) || exists y :: y in v && y !in v0 && a in AssetLinksOf(env, y)
  }

  lemma CompleteStep(env: Environment, v0: set<Id>, vb: set<Id>, va: set<Id>)
    requires v0 <= vb <= va && CompleteSince(env, v0, vb) && CompleteSince(env, vb, va)
    ensures CompleteSince(env, v0, va)
  {
  }

  lemma AssetsStep(env: Environment, v0: set<Id>, vb: set<Id>, va: set<Id>, assets: seq<Id>, more: seq<Id>)
    requires v0 <= vb <= va
    requires AssetsCovered(env, v0, vb, assets) && AssetsCovered(env, vb, va, more)
    requires AssetsJustified(env, v0, vb, assets) && AssetsJustified(env, vb, va, more)
    ensures AssetsCovered(env, v0, va, assets + more) && AssetsJustified(env, v0, va, assets + more)
  {
    forall a | a in assets + more
      ensures (a in va && a !in v0 && Fetch(env, a).AssetRes?) || exists y :: y in va && y !in v0 && a in AssetLinksOf(env, y)
    {
      if a in assets {
        if !(a in vb && a !in v0 && Fetch(env, a).AssetRes?) {
          var y :| y in vb && y !in v0 && a in AssetLinksOf(env, y);
          assert y in va;
        }
      } else {
        assert a in more;
        if !(a in va && a !in vb && Fetch(env, a).AssetRes?) {
          var y :| y in va && y !in vb && a in AssetLinksOf(env, y);
          assert y !in v0;
        }
      }
    }
  }

  /**
   * What a successful expansion of `c` promises, from the visited set `vb`
   * before it to `va` after it: an ID visited before is a no-op; the
   * returned entry IDs are exactly the IDs newly visited below `c`; the
   * newly visited IDs are reachable from `c` without passing through `vb`,
   * and complete; the asset IDs are covered and justified, and none of them
   * was visited before the expansion.
   */
  ghost predicate Expanded(env: Environment, c: Id, vb: set<Id>, va: set<Id>, found: Found)
  {
    && vb <= va && c in va
    && (c in vb ==> found == Found([], []) && va == vb)
    && Elems(found.entryIDs) == va - vb - {c}
    && Elems(found.entryIDs) <= EntryTargets(env)
    && va - vb <= ReachFrom(env, c, vb)
    && CompleteSince(env, vb, va)
    && AssetsCovered(env, vb, va, found.assetIDs)
    && AssetsJustified(env, vb, va, found.assetIDs)
    && NoneVisited(found.assetIDs, vb)
  }

  /** None of `ids` is in the visited set `v`. */
  ghost predicate NoneVisited(ids: seq<Id>, v: set<Id>)
  {
    forall a :: a in ids ==> a !in v
  }

  /** Appending IDs unvisited at a later point keeps a list free of IDs visited at an earlier one. */
  lemma NoneVisitedAppend(ids: seq<Id>, more: seq<Id>, v0: set<Id>, vb: set<Id>)
    requires v0 <= vb && NoneVisited(ids, v0) && NoneVisited(more, vb)
    ensures NoneVisited(ids + more, v0)
  {
  }

  /**
   * One expansion of an unvisited `c` visits exactly what `c` reaches
   * without passing through the IDs visited before it, and lists all of
   * them but `c` itself.
   */
  lemma ExpandedExact(env: Environment, c: Id, vb: set<Id>, va: set<Id>, found: Found)
    requires Expanded(env, c, vb, va, found) && c !in vb
    ensures va - vb == ReachFrom(env, c, vb)
    ensures Elems(found.entryIDs) == ReachFrom(env, c, vb) - {c}
  {
    var s := va - vb;
    assert ClosedOutside(env, s, vb);
    forall x | x in ReachFrom(env, c, vb) ensures x in s {
      ReachFromMember(env, c, vb, x);
      var n: nat :| x in Below(env, c, vb, n);
      BelowClosed(env, c, vb, s, n);
    }
  }

  /**
   * The invariant of the loop over the growing `entryIDs` array of one
   * expansion, list part: `v1` is the visited set after marking the
   * expanded ID, `scanned` the entry IDs the scan collected; the first `k`
   * listed IDs are expanded, and every ID visited since `v1` is listed.
   */
  ghost predicate ListInv(env: Environment, reach: set<Id>, v1: set<Id>, v: set<Id>,
                          scanned: seq<Id>, entryIDs: seq<Id>, k: int)
  {
    && 0 <= k <= |entryIDs|
    && v1 <= v
    && scanned <= entryIDs
    && (forall e :: e in entryIDs ==> e !in v1 && e in EntryTargets(env) && e in reach)
    && (forall j :: 0 <= j < k ==> entryIDs[j] in v)
    && v - v1 <= Elems(entryIDs)
  }

  /** The same loop's invariant, set part: `v0` is the visited set before the expansion. */
  ghost predicate SetsInv(env: Environment, v0: set<Id>, v1: set<Id>, v: set<Id>, assetIDs: seq<Id>)
  {
    && CompleteSince(env, v1, v)
    && AssetsCovered(env, v0, v, assetIDs)
    && AssetsJustified(env, v0, v, assetIDs)
  }

  ghost predicate LoopInv(env: Environment, reach: set<Id>, v0: set<Id>, v1: set<Id>, v: set<Id>,
                          scanned: seq<Id>, entryIDs: seq<Id>, assetIDs: seq<Id>, k: int)
  {
    ListInv(env, reach, v1, v, scanned, entryIDs, k) && SetsInv(env, v0, v1, v, assetIDs)
  }

  /** Appending a child's entry IDs keeps every listed ID a fresh, reachable link target. */
  lemma AppendedTargets(env: Environment, reach: set<Id>, v1: set<Id>, vb: set<Id>, va: set<Id>,
                        entryIDs: seq<Id>, more: seq<Id>)
    requires v1 <= vb && Elems(more) <= va - vb && Elems(more) <= EntryTargets(env)
    requires forall e :: e in entryIDs ==> e !in v1 && e in EntryTargets(env) && e in reach
    requires va <= reach
    ensures forall e :: e in entryIDs + more ==> e !in v1 && e in EntryTargets(env) && e in reach
  {
    forall e | e in entryIDs + more ensures e !in v1 && e in EntryTargets(env) && e in reach {
      if e !in entryIDs {
        assert e in Elems(more);
      }
    }
  }

  /** Appending a child's entry IDs keeps every ID visited since `v1` listed. */
  lemma AppendedCover(v1: set<Id>, vb: set<Id>, va: set<Id>, entryIDs: seq<Id>, k: int, more: seq<Id>)
    requires 0 <= k < |entryIDs| && vb - v1 <= Elems(entryIDs) && Elems(more) == va - vb - {entryIDs[k]}
    ensures va - v1 <= Elems(entryIDs + more)
  {
    var entryIDs' := entryIDs + more;
    forall x | x in va - v1 ensures x in Elems(entryIDs') {
      if x in vb {
        assert x in Elems(entryIDs);
        var j :| 0 <= j < |entryIDs| && entryIDs[j] == x;
        assert entryIDs'[j] == x;
      } else if x == entryIDs[k] {
        assert entryIDs'[k] == x;
      } else {
        assert x in Elems(more);
        var j :| 0 <= j < |more| && more[j] == x;
        assert entryIDs'[|entryIDs| + j] == x;
      }
    }
  }

  lemma ListStep(env: Environment, reach: set<Id>, v1: set<Id>, vb: set<Id>, va: set<Id>,
                 scanned: seq<Id>, entryIDs: seq<Id>, k: int, more: seq<Id>)
    requires ListInv(env, reach, v1, vb, scanned, entryIDs, k) && k < |entryIDs|
    requires vb <= va <= reach && entryIDs[k] in va
    requires Elems(more) == va - vb - {entryIDs[k]} && Elems(more) <= EntryTargets(env)
    ensures ListInv(env, reach, v1, va, scanned, entryIDs + more, k + 1)
  {
    var entryIDs' := entryIDs + more;
    AppendedTargets(env, reach, v1, vb, va, entryIDs, more);
    forall j | 0 <= j < k + 1 ensures entryIDs'[j] in va {
      assert entryIDs'[j] == entryIDs[j];
    }
    AppendedCover(v1, vb, va, entryIDs, k, more);
  }

  lemma SetsStep(env: Environment, v0: set<Id>, v1: set<Id>, vb: set<Id>, va: set<Id>, assetIDs: seq<Id>, more: seq<Id>)
    requires v0 <= v1 <= vb <= va
    requires SetsInv(env, v0, v1, vb, assetIDs)
    requires CompleteSince(env, vb, va) && AssetsCovered(env, vb, va, more) && AssetsJustified(env, vb, va, more)
    ensures SetsInv(env, v0, v1, va, assetIDs + more)
  {
    CompleteStep(env, v1, vb, va);
    AssetsStep(env, v0, vb, va, assetIDs, more);
  }

  /** One child expansion followed by the two pushes keeps the loop invariant. */
  lemma LoopStep(env: Environment, reach: set<Id>, v0: set<Id>, v1: set<Id>, vb: set<Id>, va: set<Id>,
                 scanned: seq<Id>, entryIDs: seq<Id>, assetIDs: seq<Id>, k: int, found: Found)
    requires v0 <= v1
    requires LoopInv(env, reach, v0, v1, vb, scanned, entryIDs, assetIDs, k) && k < |entryIDs|
    requires Expanded(env, entryIDs[k], vb, va, found)
    requires va <= reach
    ensures LoopInv(env, reach, v0, v1, va, scanned, entryIDs + found.entryIDs, assetIDs + found.assetIDs, k + 1)
  {
    ListStep(env, reach, v1, vb, va, scanned, entryIDs, k, found.entryIDs);
    SetsStep(env, v0, v1, vb, va, assetIDs, found.assetIDs);
  }

  lemma LoopInit(env: Environment, roots: seq<Id>, x: Id, v0: set<Id>, v1: set<Id>, fields: seq<Field>,
                 scanned: seq<Id>, assetIDs: seq<Id>)
    requires x !in v0 && v1 == v0 + {x} && Fetch(env, x) == EntryRes(fields)
    requires Reachable(env, roots, x)
    requires scanned == FieldLinks(fields, ENTRY_LINK, v1) && assetIDs == FieldLinks(fields, ASSET_LINK, v1)
    ensures LoopInv(env, ReachSet(env, roots), v0, v1, v1, scanned, scanned, assetIDs, 0)
  {
    FieldLinksVisited(fields, ENTRY_LINK, v1);
    FieldLinksVisited(fields, ASSET_LINK, v1);
    forall e | e in scanned ensures e !in v1 && e in EntryTargets(env) && e in ReachSet(env, roots) {
      assert e in Elems(scanned);
      ReachableStep(env, roots, x, e);
      ReachSetMember(env, roots, e);
    }
    forall a | a in assetIDs
      ensures (a in v1 && a !in v0 && Fetch(env, a).AssetRes?) || exists y :: y in v1 && y !in v0 && a in AssetLinksOf(env, y)
    {
      assert a in Elems(assetIDs);
      assert x in v1 && x !in v0 && a in AssetLinksOf(env, x);
    }
    forall a | a in AssetLinksOf(env, x) ensures a in assetIDs || a in v1 {
      if a !in v1 {
        assert a in Elems(assetIDs);
      }
    }
  }

  /** The same loop's invariant, bound part: everything visited or listed since `v0` is reachable from `c` outside `v0`. */
  ghost predicate FringeInv(env: Environment, c: Id, v0: set<Id>, v: set<Id>, entryIDs: seq<Id>)
  {
    && v - v0 <= ReachFrom(env, c, v0)
    && forall e :: e in entryIDs ==> e in ReachFrom(env, c, v0)
  }

  lemma FringeInit(env: Environment, x: Id, v0: set<Id>, v1: set<Id>, fields: seq<Field>, scanned: seq<Id>)
    requires x !in v0 && v1 == v0 + {x} && Fetch(env, x) == EntryRes(fields)
    requires scanned == FieldLinks(fields, ENTRY_LINK, v1)
    ensures FringeInv(env, x, v0, v1, scanned)
  {
    ReachFromStart(env, x, v0);
    FieldLinksVisited(fields, ENTRY_LINK, v1);
    forall e | e in scanned ensures e in ReachFrom(env, x, v0) {
      assert e in Elems(scanned);
      ReachFromStep(env, x, v0, x, e);
    }
  }

  /** A child expansion stays within what `c` reaches, so one iteration keeps the bound. */
  lemma FringeStep(env: Environment, c: Id, v0: set<Id>, vb: set<Id>, va: set<Id>, entryIDs: seq<Id>, k: int, found: Found)
    requires v0 <= vb && FringeInv(env, c, v0, vb, entryIDs) && 0 <= k < |entryIDs|
    requires Expanded(env, entryIDs[k], vb, va, found)
    ensures FringeInv(env, c, v0, va, entryIDs + found.entryIDs)
  {
    ReachFromTrans(env, c, v0, entryIDs[k], vb);
    forall e | e in entryIDs + found.entryIDs ensures e in ReachFrom(env, c, v0) {
      if e !in entryIDs {
        assert e in Elems(found.entryIDs);
      }
    }
  }

  /** The scan skips visited IDs, so none of the Asset links it collects was visited. */
  lemma AssetsUnvisited(fields: seq<Field>, v0: set<Id>, v1: set<Id>)
    requires v0 <= v1
    ensures NoneVisited(FieldLinks(fields, ASSET_LINK, v1), v0)
  {
    forall a | a in FieldLinks(fields, ASSET_LINK, v1) ensures a !in v0 {
      FieldLinksSpec(fields, ASSET_LINK, v1, a);
    }
  }

  lemma LoopExit(env: Environment, reach: set<Id>, x: Id, v0: set<Id>, v1: set<Id>, v: set<Id>, fields: seq<Field>,
                 scanned: seq<Id>, entryIDs: seq<Id>, assetIDs: seq<Id>)
    requires x !in v0 && v1 == v0 + {x} && Fetch(env, x) == EntryRes(fields)
    requires scanned == FieldLinks(fields, ENTRY_LINK, v1)
    requires LoopInv(env, reach, v0, v1, v, scanned, entryIDs, assetIDs, |entryIDs|)
    requires v - v0 <= ReachFrom(env, x, v0)
    requires NoneVisited(assetIDs, v0)
    ensures Expanded(env, x, v0, v, Found(entryIDs, assetIDs))
  {
    FieldLinksVisited(fields, ENTRY_LINK, v1);
    forall e | e in EntryLinksOf(env, x) ensures e in v {
      if e !in v1 {
        assert e in Elems(scanned);
        var j :| 0 <= j < |scanned| && scanned[j] == e;
        assert entryIDs[j] == e;
      }
    }
    forall e | e in Elems(entryIDs) ensures e in v {
      var j :| 0 <= j < |entryIDs| && entryIDs[j] == e;
    }
  }

  /**
   * The traversal state shared by all recursive calls of one resolution:
   * the `visited` Set, and (for the proofs) the log of IDs looked up in
   * the store, one entry per getEntry-then-getAsset probe.
   */
  class Traversal {
    const env: Environment
    ghost const roots: seq<Id>
    var visited: set<Id>
    ghost var fetched: seq<Id>

    /** Only reachable IDs are ever visited; each visited ID was looked up exactly once. */
    ghost predicate Valid()
      reads this
    {
      && (forall x :: x in visited ==> Reachable(env, roots, x))
      && NoDups(fetched)
      && Elems(fetched) == visited
    }

    /** No lookup so far has failed. */
    ghost predicate AllFound()
      reads this
    {
      forall x :: x in visited ==> !Fetch(env, x).Missing?
    }

    constructor (env: Environment, ghost roots: seq<Id>)
      ensures this.env == env && this.roots == roots
      ensures visited == {} && fetched == []
      ensures Valid() && AllFound()
    {
      this.env := env;
      this.roots := roots;
      visited := {};
      fetched := [];
    }

    /**
     * fetchEntryAndGetLinksRecursively. An already visited ID returns
     * empty lists without a lookup. Otherwise the ID is marked visited,
     * looked up, and, for an entry, its links are scanned and every
     * collected entry ID is expanded, including the IDs appended to
     * `entryIDs` while the loop runs.
     */
    method Expand(itemID: Id) returns (r: Result<Found, LookupError>)
      requires Valid() && AllFound() && Reachable(env, roots, itemID)
      modifies this
      decreases EntryTargets(env) + {itemID} - visited
      ensures Valid() && old(visited) <= visited && itemID in visited
      ensures old(fetched) <= fetched
      ensures itemID in old(visited) ==> r == Success(Found([], [])) && visited == old(visited) && fetched == old(fetched)
      ensures r.Failure? ==> Reachable(env, roots, r.error.id) && Fetch(env, r.error.id).Missing?
      ensures r.Failure? ==> r.error.id in ReachFrom(env, itemID, old(visited))
      ensures r.Success? ==> AllFound() && Expanded(env, itemID, old(visited), visited, r.value)
    {
      if itemID in visited {
        return Success(Found([], []));
      }
      ghost var V0 := visited;
      visited := visited + {itemID};
      fetched := fetched + [itemID];
      if itemID in env.entries {
        var fields := env.entries[itemID];
        var entryIDs, assetIDs := ScanLinks(fields, visited);
        ghost var V1 := visited;
        ghost var scanned := entryIDs;
        LoopInit(env, roots, itemID, V0, V1, fields, scanned, assetIDs);
        FringeInit(env, itemID, V0, V1, fields, scanned);
        AssetsUnvisited(fields, V0, V1);
        var k := 0;
        while k < |entryIDs|
          invariant Valid() && AllFound()
          invariant LoopInv(env, ReachSet(env, roots), V0, V1, visited, scanned, entryIDs, assetIDs, k)
          invariant FringeInv(env, itemID, V0, visited, entryIDs)
          invariant NoneVisited(assetIDs, V0)
          invariant old(fetched) <= fetched
          decreases EntryTargets(env) - visited, |entryIDs| - k
        {
          ghost var Vb := visited;
          ReachSetMember(env, roots, entryIDs[k]);
          var child := Expand(entryIDs[k]);
          if child.Failure? {
            ReachFromTrans(env, itemID, V0, entryIDs[k], Vb);
            return child;
          }
          VisitedInReach(env, roots, visited);
          LoopStep(env, ReachSet(env, roots), V0, V1, Vb, visited, scanned, entryIDs, assetIDs, k, child.value);
          FringeStep(env, itemID, V0, Vb, visited, entryIDs, k, child.value);
          NoneVisitedAppend(assetIDs, child.value.assetIDs, V0, Vb);
          entryIDs := entryIDs + child.value.entryIDs;
          assetIDs := assetIDs + child.value.assetIDs;
          k := k + 1;
        }
        LoopExit(env, ReachSet(env, roots), itemID, V0, V1, visited, fields, scanned, entryIDs, assetIDs);
        r := Success(Found(entryIDs, assetIDs));
      } else if itemID in env.assets {
        ReachFromStart(env, itemID, V0);
        r := Success(Found([], [itemID]));
      } else {
        ReachFromStart(env, itemID, V0);
        r := Failure(LookupError(itemID));
      }
    }
  }

  /**
   * `ids.forEach((id) => set.add(id))` on a JavaScript Set, kept as the
   * sequence of its elements in insertion order (which `Array.from`
   * returns): present IDs are skipped, new ones are appended.
   */
  method AddAll(set0: seq<Id>, ids: seq<Id>) returns (set1: seq<Id>)
    requires NoDups(set0)
    ensures NoDups(set1)
    ensures Elems(set1) == Elems(set0) + Elems(ids)
    ensures set0 <= set1
  {
    set1 := set0;
    for i := 0 to |ids|
      invariant NoDups(set1)
      invariant Elems(set1) == Elems(set0) + Elems(ids[..i])
      invariant set0 <= set1
    {
      ghost var prev := set1;
      if ids[i] !in set1 {
        set1 := set1 + [ids[i]];
      }
      assert ids[..i + 1] == ids[..i] + [ids[i]];
      assert Elems(set1) == Elems(prev) + {ids[i]};
      assert Elems(ids[..i + 1]) == Elems(ids[..i]) + {ids[i]};
    }
    assert ids[..|ids|] == ids;
  }

  /** The state kept by the loop over the roots, with `v` the visited set and `entries`/`assets` the two Sets. */
  ghost predicate RootsInv(env: Environment, parentIDs: seq<Id>, i: int, v: set<Id>, entries: seq<Id>, assets: seq<Id>)
  {
    && 0 <= i <= |parentIDs|
    && Elems(parentIDs[..i]) <= v
    && CompleteSince(env, {}, v)
    && NoDups(entries) && NoDups(assets)
    && Elems(entries) == Elems(parentIDs) + v
    && AssetsCovered(env, {}, v, assets)
    && AssetsJustified(env, {}, v, assets)
  }

  lemma RootsStep(env: Environment, parentIDs: seq<Id>, i: int, vb: set<Id>, va: set<Id>,
                  entries: seq<Id>, assets: seq<Id>, found: Found, entries': seq<Id>, assets': seq<Id>)
    requires RootsInv(env, parentIDs, i, vb, entries, assets) && i < |parentIDs|
    requires Expanded(env, parentIDs[i], vb, va, found)
    requires NoDups(entries') && Elems(entries') == Elems(entries) + Elems(found.entryIDs)
    requires NoDups(assets') && Elems(assets') == Elems(assets) + Elems(found.assetIDs)
    ensures RootsInv(env, parentIDs, i + 1, va, entries', assets')
  {
    assert parentIDs[..i + 1] == parentIDs[..i] + [parentIDs[i]];
    CompleteStep(env, {}, vb, va);
    AssetsStep(env, {}, vb, va, assets, found.assetIDs);
    var joined := assets + found.assetIDs;
    forall a ensures a in assets' <==> a in joined {
      assert a in Elems(assets') <==> a in Elems(joined);
    }
  }

  /** Every reachable asset and every Asset link of a reachable entry is in `assets`, unless the link names a reachable entry. */
  ghost predicate AssetsComplete(env: Environment, roots: seq<Id>, assets: seq<Id>)
  {
    && (forall x :: Reachable(env, roots, x) && Fetch(env, x).AssetRes? ==> x in assets)
    && (forall y, a :: Reachable(env, roots, y) && a in AssetLinksOf(env, y) ==>
          a in assets || (Reachable(env, roots, a) && Fetch(env, a).EntryRes?))
  }

  /** Every ID in `assets` is a reachable asset or an Asset link of a reachable entry. */
  ghost predicate AssetsSound(env: Environment, roots: seq<Id>, assets: seq<Id>)
  {
    forall a :: a in assets ==>
      (Reachable(env, roots, a) && Fetch(env, a).AssetRes?) ||
      exists y :: Reachable(env, roots, y) && a in AssetLinksOf(env, y)
  }

  /** No Asset-typed link names an ID that resolves as an entry. */
  ghost predicate AssetLinksTyped(env: Environment)
  {
    forall y, a :: a in AssetLinksOf(env, y) ==> !Fetch(env, a).EntryRes?
  }

  /** The assets are exactly the reachable IDs that resolve as assets and the Asset-typed links of reachable entries. */
  ghost predicate AssetsExact(env: Environment, roots: seq<Id>, assets: seq<Id>)
  {
    forall a :: a in assets <==>
      (Reachable(env, roots, a) && Fetch(env, a).AssetRes?) ||
      exists y :: Reachable(env, roots, y) && a in AssetLinksOf(env, y)
  }

  /**
   * Once every root is expanded and the visited set is exactly the
   * reachable IDs, the two Sets say what the resolver promises about
   * entries and assets.
   */
  lemma RootsDone(env: Environment, parentIDs: seq<Id>, v: set<Id>, entries: seq<Id>, assets: seq<Id>)
    requires RootsInv(env, parentIDs, |parentIDs|, v, entries, assets)
    requires forall x :: x in v <==> Reachable(env, parentIDs, x)
    requires forall x :: x in v ==> !Fetch(env, x).Missing?
    ensures forall x :: x in entries <==> Reachable(env, parentIDs, x)
    ensures AssetsComplete(env, parentIDs, assets)
    ensures AssetsSound(env, parentIDs, assets)
    ensures AssetLinksTyped(env) ==> AssetsExact(env, parentIDs, assets)
  {
    assert parentIDs[..|parentIDs|] == parentIDs;
    forall x ensures x in entries <==> Reachable(env, parentIDs, x) {
      assert x in entries <==> x in Elems(entries);
    }
  }

  /**
   * recursivelyGatherSystemIDs, after the client and environment are set
   * up: the entry Set starts as the roots, every root is expanded with
   * one shared visited set, and each expansion's IDs are added to the two
   * Sets. A lookup failure anywhere fails the whole call with no partial
   * result. `fetched` is the log of lookups made.
   */
  method GatherSystemIds(env: Environment, parentIDs: seq<Id>) returns (r: Result<Gathered, LookupError>, ghost fetched: seq<Id>)
    ensures NoDups(fetched)
    ensures forall x :: x in fetched ==> Reachable(env, parentIDs, x)
    ensures r.Failure? <==> exists x :: Reachable(env, parentIDs, x) && Fetch(env, x).Missing?
    ensures r.Failure? ==> Reachable(env, parentIDs, r.error.id) && Fetch(env, r.error.id).Missing?
    ensures r.Success? ==> forall x :: x in fetched <==> Reachable(env, parentIDs, x)
    ensures r.Success? ==> NoDups(r.value.entries) && NoDups(r.value.assets)
    ensures r.Success? ==> forall i :: 0 <= i < |parentIDs| ==> parentIDs[i] in r.value.entries
    ensures r.Success? ==> forall x :: x in r.value.entries <==> Reachable(env, parentIDs, x)
    ensures r.Success? ==> AssetsComplete(env, parentIDs, r.value.assets)
    ensures r.Success? ==> AssetsSound(env, parentIDs, r.value.assets)
    ensures r.Success? && AssetLinksTyped(env) ==> AssetsExact(env, parentIDs, r.value.assets)
  {
    var t := new Traversal(env, parentIDs);
    var allEntryIDs := AddAll([], parentIDs);
    var allAssetIDs: seq<Id> := [];
    for i := 0 to |parentIDs|
      invariant fresh(t) && t.env == env && t.roots == parentIDs
      invariant t.Valid() && t.AllFound()
      invariant RootsInv(env, parentIDs, i, t.visited, allEntryIDs, allAssetIDs)
    {
      assert parentIDs[i] in Within(env, parentIDs, 0);
      ghost var Vb := t.visited;
      var res := t.Expand(parentIDs[i]);
      if res.Failure? {
        return Failure(res.error), t.fetched;
      }
      var entries' := AddAll(allEntryIDs, res.value.entryIDs);
      var assets' := AddAll(allAssetIDs, res.value.assetIDs);
      RootsStep(env, parentIDs, i, Vb, t.visited, allEntryIDs, allAssetIDs, res.value, entries', assets');
      allEntryIDs, allAssetIDs := entries', assets';
    }
    assert parentIDs[..|parentIDs|] == parentIDs;
    forall x | Reachable(env, parentIDs, x) ensures x in t.visited {
      ClosedHoldsReachable(env, parentIDs, t.visited, x);
    }
    RootsDone(env, parentIDs, t.visited, allEntryIDs, allAssetIDs);
    forall i | 0 <= i < |parentIDs| ensures parentIDs[i] in allEntryIDs {
      assert parentIDs[i] in Within(env, parentIDs, 0);
    }
    r := Success(Gathered(allEntryIDs, allAssetIDs));
    fetched := t.fetched;
  }

  /** With roots that link nothing, exactly the roots are reachable. */
  lemma LeafRootsReach(env: Environment, roots: seq<Id>, x: Id)
    requires forall y :: y in roots ==> EntryLinksOf(env, y) == {}
    ensures Reachable(env, roots, x) <==> x in roots
  {
    assert Closed(env, Elems(roots));
    if Reachable(env, roots, x) {
      ClosedHoldsReachable(env, roots, Elems(roots), x);
    }
    if x in roots {
      assert x in Within(env, roots, 0);
    }
  }

  /**
   * Roots that link nothing: the entry Set is the roots, and the asset Set
   * is the roots that resolve to assets.
   */
  lemma LeafRootsOutcome(env: Environment, roots: seq<Id>, entries: seq<Id>, assets: seq<Id>)
    requires forall y :: y in roots ==> EntryLinksOf(env, y) == {} && AssetLinksOf(env, y) == {}
    requires forall x :: x in entries <==> Reachable(env, roots, x)
    requires AssetsComplete(env, roots, assets) && AssetsSound(env, roots, assets)
    ensures Elems(entries) == Elems(roots)
    ensures forall a :: a in assets <==> a in roots && Fetch(env, a).AssetRes?
  {
    forall x ensures x in entries <==> x in roots {
      LeafRootsReach(env, roots, x);
    }
    forall a ensures a in assets <==> a in roots && Fetch(env, a).AssetRes? {
      LeafRootsReach(env, roots, a);
      forall y | Reachable(env, roots, y) ensures a !in AssetLinksOf(env, y) {
        LeafRootsReach(env, roots, y);
      }
    }
  }

  /**
   * The end-to-end case: root `root1` holds, in one field and locale, the
   * array [entry link to `e2`, asset link to `a1`]; `e2` has no fields;
   * `a1` is an asset.
   */
  function ScenarioRoot(): seq<Field>
  {
    [Field("related", [Localized("en-US", Array([Link("e2", ENTRY_LINK), Link("a1", ASSET_LINK)]))])]
  }

  function ScenarioEnv(): Environment
  {
    Environment(map["root1" := ScenarioRoot(), "e2" := []], {"a1"})
  }

  lemma ScenarioLinkSet(kind: string, target: Id, x: Id)
    requires (kind == ENTRY_LINK && target == "e2") || (kind == ASSET_LINK && target == "a1")
    ensures x in LinkSet(ScenarioRoot(), kind) <==> x == target
  {
    var fields := ScenarioRoot();
    FieldLinksSpec(fields, kind, {}, x);
    if LinkedFrom(fields, x, kind) {
      var i, j :| 0 <= i < |fields| && 0 <= j < |fields[i].locales| && Carries(fields[i].locales[j].value, x, kind);
      assert i == 0 && j == 0;
    }
    if x == target {
      assert Carries(fields[0].locales[0].value, x, kind);
    }
  }

  lemma ScenarioReach(x: Id)
    ensures Reachable(ScenarioEnv(), ["root1"], x) <==> x == "root1" || x == "e2"
    ensures AssetLinksOf(ScenarioEnv(), "root1") == {"a1"} && AssetLinksOf(ScenarioEnv(), "e2") == {}
  {
    var env, roots := ScenarioEnv(), ["root1"];
    forall y ensures y in EntryLinksOf(env, "root1") <==> y == "e2" {
      ScenarioLinkSet(ENTRY_LINK, "e2", y);
    }
    forall y ensures y in AssetLinksOf(env, "root1") <==> y == "a1" {
      ScenarioLinkSet(ASSET_LINK, "a1", y);
    }
    assert EntryLinksOf(env, "e2") == {};
    var reach: set<Id> := {"root1", "e2"};
    assert Closed(env, reach);
    if Reachable(env, roots, x) {
      ClosedHoldsReachable(env, roots, reach, x);
    }
    assert "root1" in Within(env, roots, 0);
    if x == "e2" {
      ReachableStep(env, roots, "root1", "e2");
    }
  }

  lemma ScenarioEntries(entries: seq<Id>)
    requires forall x :: x in entries <==> Reachable(ScenarioEnv(), ["root1"], x)
    ensures Elems(entries) == {"root1", "e2"}
  {
    forall x ensures x in Elems(entries) <==> x == "root1" || x == "e2" {
      ScenarioReach(x);
    }
  }

  lemma ScenarioFetches(fetched: seq<Id>)
    requires NoDups(fetched)
    requires forall x :: x in fetched <==> Reachable(ScenarioEnv(), ["root1"], x)
    ensures |fetched| == 2
  {
    ScenarioEntries(fetched);
    NoDupsCard(fetched);
  }

  lemma ScenarioAssetListed(assets: seq<Id>)
    requires AssetsComplete(ScenarioEnv(), ["root1"], assets)
    ensures "a1" in assets
  {
    ScenarioReach("root1");
    ScenarioReach("a1");
    assert "a1" in AssetLinksOf(ScenarioEnv(), "root1");
  }

  lemma ScenarioAssetOnly(assets: seq<Id>, a: Id)
    requires AssetsSound(ScenarioEnv(), ["root1"], assets) && a in assets
    ensures a == "a1"
  {
    var env := ScenarioEnv();
    ScenarioReach(a);
    if !(Reachable(env, ["root1"], a) && Fetch(env, a).AssetRes?) {
      var y :| Reachable(env, ["root1"], y) && a in AssetLinksOf(env, y);
      ScenarioReach(y);
    }
  }

  lemma ScenarioAssets(assets: seq<Id>)
    requires AssetsComplete(ScenarioEnv(), ["root1"], assets)
    requires AssetsSound(ScenarioEnv(), ["root1"], assets)
    ensures Elems(assets) == {"a1"}
  {
    ScenarioAssetListed(assets);
    forall a | a in Elems(assets) ensures a == "a1" {
      ScenarioAssetOnly(assets, a);
    }
  }

  lemma ScenarioNothingMissing()
    ensures !exists x :: Reachable(ScenarioEnv(), ["root1"], x) && Fetch(ScenarioEnv(), x).Missing?
  {
    forall x | Reachable(ScenarioEnv(), ["root1"], x) ensures !Fetch(ScenarioEnv(), x).Missing? {
      ScenarioReach(x);
    }
  }

  /** What the resolver's contract yields for the scenario, step by step. */
  lemma ScenarioOutcome(env: Environment, roots: seq<Id>, r: Result<Gathered, LookupError>, fetched: seq<Id>)
    requires env == ScenarioEnv() && roots == ["root1"]
    requires NoDups(fetched)
    requires r.Failure? <==> exists x :: Reachable(env, roots, x) && Fetch(env, x).Missing?
    requires r.Success? ==> forall x :: x in fetched <==> Reachable(env, roots, x)
    requires r.Success? ==> forall x :: x in r.value.entries <==> Reachable(env, roots, x)
    requires r.Success? ==> AssetsComplete(env, roots, r.value.assets)
    requires r.Success? ==> AssetsSound(env, roots, r.value.assets)
    ensures r.Success?
    ensures Elems(r.value.entries) == {"root1", "e2"}
    ensures Elems(r.value.assets) == {"a1"}
    ensures |fetched| == 2
  {
    assert r.Success? by {
      ScenarioNothingMissing();
    }
    assert Elems(r.value.entries) == {"root1", "e2"} by {
      ScenarioEntries(r.value.entries);
    }
    assert Elems(r.value.assets) == {"a1"} by {
      ScenarioAssets(r.value.assets);
    }
    ScenarioFetches(fetched);
  }

  /** The linked asset is never looked up, so the scenario makes two lookups, not three. */
  method EndToEndScenario() returns (r: Result<Gathered, LookupError>, ghost fetched: seq<Id>)
    ensures r.Success?
    ensures Elems(r.value.entries) == {"root1", "e2"}
    ensures Elems(r.value.assets) == {"a1"}
    ensures |fetched| == 2
  {
    var env, roots := ScenarioEnv(), ["root1"];
    r, fetched := GatherSystemIds(env, roots);
    ScenarioOutcome(env, roots, r, fetched);
  }
}
