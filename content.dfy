/**
 * The shape of content records as the management API hands them out:
 * an entry's `fields` maps a field name to a map from locale to value.
 * Both levels are ordered sequences of key/value pairs here, in the
 * object's own key order (JavaScript lists integer-like keys first, then
 * the others in insertion order; that order comes with the input).
 */
module Content {

  /** A system ID of an entry or asset within one environment. */
  type Id = string

  /**
   * A field value for one locale, as far as the core looks at it.
   * `Link` is any object with a `sys` part; a missing or empty `sys.id`
   * is the empty string (both are falsy in the source).
   * `Other` stands for every remaining value (numbers, booleans, rich
   * text, locations, objects without `sys`).
   */
  datatype Value =
    | Text(text: string)
    | Link(id: Id, linkType: string)
    | Array(items: seq<Value>)
    | Other

  datatype Localized = Localized(locale: string, value: Value)

  datatype Field = Field(name: string, locales: seq<Localized>)

  /** The `sys.linkType` discriminators the core recognises. */
  const ENTRY_LINK: string := "Entry"
  const ASSET_LINK: string := "Asset"

  function Elems<T>(s: seq<T>): set<T>
  {
    set x | x in s
  }

  predicate NoDups<T(==)>(s: seq<T>)
  {
    forall i, j :: 0 <= i < j < |s| ==> s[i] != s[j]
  }

  /** A sequence without duplicates is exactly as long as its set of elements. */
  lemma {:induction false} NoDupsCard<T>(s: seq<T>)
    requires NoDups(s)
    ensures |Elems(s)| == |s|
  {
    if s != [] {
      var t := s[..|s| - 1];
      assert NoDups(t);
      NoDupsCard(t);
      assert Elems(s) == Elems(t) + {s[|s| - 1]};
      assert s[|s| - 1] !in Elems(t) by {
        forall i | 0 <= i < |t| ensures t[i] != s[|s| - 1] {
          assert s[i] != s[|s| - 1];
        }
      }
    }
  }
}
