/**
 * The nested dictionary both `read_chunk` and `collect_stats` build:
 * product -> year -> list of company names, one entry per complaint.
 */
module Grouping {
  import opened Basics

  type YearMap = map<int, seq<string>>
  type PartialMap = map<string, YearMap>

  predicate Has(d: PartialMap, p: string, y: int)
  {
    p in d && y in d[p]
  }

  /** `d[p][y]`, or the empty list when either key is absent. */
  function Lookup(d: PartialMap, p: string, y: int): seq<string>
  {
    if Has(d, p, y) then d[p][y] else []
  }

  /**
   * What every map the program builds satisfies: a product is only created
   * together with a year, and a year only together with a company.
   */
  predicate WellFormed(d: PartialMap)
  {
    forall p :: p in d ==> d[p].Keys != {} && forall y :: y in d[p] ==> d[p][y] != []
  }

  /**
   * `d[p][y] = d[p].get(y, []) + cs`, falling back to `d[p] = {y: cs}` on the
   * KeyError of a new product: the update of read_chunk (with cs a single
   * company) and of collect_stats (with cs a worker's whole list).
   */
  function Append(d: PartialMap, p: string, y: int, cs: seq<string>): (r: PartialMap)
    ensures forall p', y' :: Lookup(r, p', y') == Lookup(d, p', y') + (if p' == p && y' == y then cs else [])
    ensures forall p', y' :: Has(r, p', y') <==> Has(d, p', y') || (p' == p && y' == y)
    ensures WellFormed(d) && cs != [] ==> WellFormed(r)
  {
    if p in d then d[p := d[p][y := Lookup(d, p, y) + cs]]
    else d[p := map[y := cs]]
  }

  /** In a well-formed map a key is present exactly when its list is non-empty. */
  lemma HasIffNonEmpty(d: PartialMap, p: string, y: int)
    requires WellFormed(d)
    ensures Has(d, p, y) <==> Lookup(d, p, y) != []
  {
  }

  /** Well-formed maps that agree on every list are the same map. */
  lemma SameLookupsSameMap(a: PartialMap, b: PartialMap)
    requires WellFormed(a) && WellFormed(b)
    requires forall p, y :: Lookup(a, p, y) == Lookup(b, p, y)
    ensures a == b
  {
    forall p | p in a
      ensures p in b && a[p] == b[p]
    {
      var y := Pick(a[p].Keys);
      assert Lookup(a, p, y) != [];
      assert Lookup(b, p, y) != [];
      forall y' | y' in a[p] ensures y' in b[p] && a[p][y'] == b[p][y'] {
        assert Lookup(a, p, y') == Lookup(b, p, y');
      }
      forall y' | y' in b[p] ensures y' in a[p] {
        assert Lookup(a, p, y') == Lookup(b, p, y');
      }
    }
    forall p | p in b
      ensures p in a
    {
      var y := Pick(b[p].Keys);
      assert Lookup(b, p, y) == Lookup(a, p, y);
    }
  }
}
