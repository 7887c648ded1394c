/**
 * Bay generation: an aisle with `sections` sections, each `baysHigh` bays
 * high, expands into its bays in order of section, then bay, each with the
 * location code `zone + number + "-" + SS + "-" + BB`.
 */
module Bays {
  import opened Decimal
  import opened Aisles

  /** One generated bay: its two-digit section and bay numbers and its location code. */
  datatype Bay = Bay(section: string, bay: string, locationCode: string)

  function LocationCode(a: Aisle, section: nat, bay: nat): string {
    a.zone + a.number + "-" + Pad2(section) + "-" + Pad2(bay)
  }

  function MakeBay(a: Aisle, section: nat, bay: nat): Bay {
    Bay(Pad2(section), Pad2(bay), LocationCode(a, section, bay))
  }

  /** Bays 1 to `m` of one section, in ascending order. */
  function SectionBays(a: Aisle, section: nat, m: nat): (r: seq<Bay>)
    ensures |r| == m
  {
    if m == 0 then [] else SectionBays(a, section, m - 1) + [MakeBay(a, section, m)]
  }

  /** The bays of sections 1 to `n`, section by section. */
  function BaysThrough(a: Aisle, n: nat): seq<Bay> {
    if n == 0 then [] else BaysThrough(a, n - 1) + SectionBays(a, n, a.baysHigh)
  }

  /** Sections 1 to `n` hold `baysHigh` bays each. */
  lemma {:induction false} BaysThroughCount(a: Aisle, n: nat)
    ensures |BaysThrough(a, n)| == n * a.baysHigh
  {
    if n > 0 {
      BaysThroughCount(a, n - 1);
      assert (n - 1) * a.baysHigh + a.baysHigh == n * a.baysHigh;
    }
  }

  /** All bays of an aisle, in the order the builder lists and exports them: `sections * baysHigh` of them. */
  function BaysOf(a: Aisle): (r: seq<Bay>)
    ensures |r| == a.sections * a.baysHigh
  {
    BaysThroughCount(a, a.sections);
    BaysThrough(a, a.sections)
  }

  /** `generateBaysForAisle`: nested loops over sections and bays, appending each bay. */
  method GenerateBays(a: Aisle) returns (bays: seq<Bay>)
    ensures bays == BaysOf(a)
  {
    bays := [];
    var section := 1;
    while section <= a.sections
      invariant 1 <= section <= a.sections + 1
      invariant bays == BaysThrough(a, section - 1)
    {
      bays := AppendSection(a, section, bays);
      section := section + 1;
    }
  }

  /** The inner loop of `generateBaysForAisle`: appends bays 1 to `baysHigh` of one section. */
  method AppendSection(a: Aisle, section: nat, bays: seq<Bay>) returns (r: seq<Bay>)
    requires section >= 1
    ensures r == bays + SectionBays(a, section, a.baysHigh)
  {
    r := bays;
    var bay := 1;
    while bay <= a.baysHigh
      invariant 1 <= bay <= a.baysHigh + 1
      invariant r == bays + SectionBays(a, section, bay - 1)
    {
      r := r + [MakeBay(a, section, bay)];
      bay := bay + 1;
    }
  }

  // ----------------------------------------------------------------- totals

  /** The bay total of a store: the sum of `sections * baysHigh` over its aisles. */
  function TotalBays(s: seq<Aisle>): nat {
    if s == [] then 0 else TotalBays(s[..|s| - 1]) + s[|s| - 1].sections * s[|s| - 1].baysHigh
  }

  /** The total of two stores laid end to end is the sum of their totals. */
  lemma {:induction false} TotalBaysConcat(s: seq<Aisle>, t: seq<Aisle>)
    ensures TotalBays(s + t) == TotalBays(s) + TotalBays(t)
  {
    if t != [] {
      assert (s + t)[..|s + t| - 1] == s + t[..|t| - 1];
      assert (s + t)[|s + t| - 1] == t[|t| - 1];
      TotalBaysConcat(s, t[..|t| - 1]);
    } else {
      assert s + t == s;
    }
  }

  /** The bay total counts exactly the bays the generator lists for each aisle. */
  lemma {:induction false} TotalBaysCountsBays(s: seq<Aisle>)
    ensures TotalBays(s) == if s == [] then 0 else |BaysOf(s[0])| + TotalBays(s[1..])
  {
    if s != [] {
      assert s == [s[0]] + s[1..];
      TotalBaysConcat([s[0]], s[1..]);
      assert [s[0]][..0] == [];
    }
  }

  // ------------------------------------------------------------ properties

  /** The section number a bay shows, read back as a number. */
  function SectionNo(b: Bay): nat {
    ParseNat(b.section)
  }

  /** The bay number a bay shows, read back as a number. */
  function LevelNo(b: Bay): nat {
    ParseNat(b.bay)
  }

  predicate Precedes(x: Bay, y: Bay) {
    SectionNo(x) < SectionNo(y) || (SectionNo(x) == SectionNo(y) && LevelNo(x) < LevelNo(y))
  }

  predicate InOrder(bays: seq<Bay>) {
    forall i, j :: 0 <= i < j < |bays| ==> Precedes(bays[i], bays[j])
  }

  lemma MakeBayNumbers(a: Aisle, section: nat, bay: nat)
    ensures SectionNo(MakeBay(a, section, bay)) == section && LevelNo(MakeBay(a, section, bay)) == bay
  {
    ParsePad2(section);
    ParsePad2(bay);
  }

  lemma {:induction false} SectionBaysAt(a: Aisle, section: nat, m: nat, k: nat)
    requires k < m
    ensures SectionBays(a, section, m)[k] == MakeBay(a, section, k + 1)
  {
    if k < m - 1 {
      SectionBaysAt(a, section, m - 1, k);
    }
  }

  lemma {:induction false} SectionsInRange(a: Aisle, n: nat, k: nat)
    requires k < |BaysThrough(a, n)|
    ensures 1 <= SectionNo(BaysThrough(a, n)[k]) <= n
  {
    assert n != 0;
    var prefix := BaysThrough(a, n - 1);
    var block := SectionBays(a, n, a.baysHigh);
    assert BaysThrough(a, n) == prefix + block;
    if k < |prefix| {
      assert BaysThrough(a, n)[k] == prefix[k];
      SectionsInRange(a, n - 1, k);
    } else {
      assert BaysThrough(a, n)[k] == block[k - |prefix|];
      SectionBaysAt(a, n, a.baysHigh, k - |prefix|);
      MakeBayNumbers(a, n, k - |prefix| + 1);
    }
  }

  /** The bays of section `n` carry section number `n` and bay numbers counting up from 1. */
  lemma LastSectionNumbers(a: Aisle, n: nat, k: nat)
    requires n >= 1 && |BaysThrough(a, n - 1)| <= k < |BaysThrough(a, n)|
    ensures SectionNo(BaysThrough(a, n)[k]) == n
    ensures LevelNo(BaysThrough(a, n)[k]) == k - |BaysThrough(a, n - 1)| + 1
  {
    var p := |BaysThrough(a, n - 1)|;
    SectionBaysAt(a, n, a.baysHigh, k - p);
    MakeBayNumbers(a, n, k - p + 1);
  }

  lemma {:induction false} PairInOrder(a: Aisle, n: nat, i: nat, j: nat)
    requires i < j < |BaysThrough(a, n)|
    ensures Precedes(BaysThrough(a, n)[i], BaysThrough(a, n)[j])
  {
    assert n != 0;
    var prefix := BaysThrough(a, n - 1);
    assert BaysThrough(a, n) == prefix + SectionBays(a, n, a.baysHigh);
    if j < |prefix| {
      assert BaysThrough(a, n)[i] == prefix[i] && BaysThrough(a, n)[j] == prefix[j];
      PairInOrder(a, n - 1, i, j);
    } else {
      LastSectionNumbers(a, n, j);
      if i < |prefix| {
        assert BaysThrough(a, n)[i] == prefix[i];
        SectionsInRange(a, n - 1, i);
      } else {
        LastSectionNumbers(a, n, i);
      }
    }
  }

  /** The bays come in strictly ascending order of section, then bay. */
  lemma BaysInOrder(a: Aisle)
    ensures InOrder(BaysOf(a))
  {
    forall i, j | 0 <= i < j < |BaysOf(a)| ensures Precedes(BaysOf(a)[i], BaysOf(a)[j]) {
      PairInOrder(a, a.sections, i, j);
    }
  }

  /** Section `n` occupies the block right after the bays of sections 1 to `n - 1`. */
  lemma SectionBlock(a: Aisle, n: nat, j: nat)
    requires n >= 1 && j < a.baysHigh
    ensures var k := |BaysThrough(a, n - 1)| + j;
      k < |BaysThrough(a, n)| && BaysThrough(a, n)[k] == MakeBay(a, n, j + 1)
  {
    SectionBaysAt(a, n, a.baysHigh, j);
  }

  /** Adding sections never changes the bays already generated. */
  lemma {:induction false} PrefixKept(a: Aisle, m: nat, n: nat, k: nat)
    requires m <= n && k < |BaysThrough(a, m)|
    ensures k < |BaysThrough(a, n)| && BaysThrough(a, n)[k] == BaysThrough(a, m)[k]
  {
    if m < n {
      PrefixKept(a, m, n - 1, k);
    }
  }

  /** Every (section, bay) pair of the aisle is generated. */
  lemma EveryBayGenerated(a: Aisle, section: nat, bay: nat)
    requires 1 <= section <= a.sections && 1 <= bay <= a.baysHigh
    ensures MakeBay(a, section, bay) in BaysOf(a)
  {
    var k := |BaysThrough(a, section - 1)| + (bay - 1);
    SectionBlock(a, section, bay - 1);
    PrefixKept(a, section, a.sections, k);
  }

  /** Each location code is the aisle's zone and number followed by the bay's own section and bay numbers. */
  lemma {:induction false} CodeFormat(a: Aisle, n: nat, k: nat)
    requires k < |BaysThrough(a, n)|
    ensures var b := BaysThrough(a, n)[k];
      b.locationCode == a.zone + a.number + "-" + b.section + "-" + b.bay &&
      AllDigits(b.section) && AllDigits(b.bay)
  {
    var prefix := BaysThrough(a, n - 1);
    if k < |prefix| {
      CodeFormat(a, n - 1, k);
    } else {
      SectionBaysAt(a, n, a.baysHigh, k - |prefix|);
    }
  }

  /** The position of the first dash in a string, or its length when it has none. */
  function FirstDash(s: string): (i: nat)
    ensures i <= |s|
  {
    if s == [] || s[0] == '-' then 0 else 1 + FirstDash(s[1..])
  }

  lemma {:induction false} FirstDashAfterDigits(x: string, y: string)
    requires AllDigits(x)
    ensures FirstDash(x + "-" + y) == |x|
  {
    if x != [] {
      assert (x + "-" + y)[1..] == x[1..] + "-" + y;
      FirstDashAfterDigits(x[1..], y);
    }
  }

  /** A location code splits back into its section and bay parts. */
  lemma SplitCode(p: string, x: string, y: string, x2: string, y2: string)
    requires AllDigits(x) && AllDigits(x2)
    requires p + "-" + x + "-" + y == p + "-" + x2 + "-" + y2
    ensures x == x2 && y == y2
  {
    var l := p + "-" + x + "-" + y;
    var m := |p| + 1;
    var u, v := x + "-" + y, x2 + "-" + y2;
    assert l[m..] == u;
    assert l[m..] == v;
    FirstDashAfterDigits(x, y);
    FirstDashAfterDigits(x2, y2);
    assert x == u[..|x|] == v[..|x|] == x2;
    assert y == u[|x| + 1..] == v[|x| + 1..] == y2;
  }

  /** No two bays of one aisle share a location code. */
  lemma LocationCodesDistinct(a: Aisle, i: nat, j: nat)
    requires i < j < |BaysOf(a)|
    ensures BaysOf(a)[i].locationCode != BaysOf(a)[j].locationCode
  {
    var bays := BaysOf(a);
    BaysInOrder(a);
    CodeFormat(a, a.sections, i);
    CodeFormat(a, a.sections, j);
    if bays[i].locationCode == bays[j].locationCode {
      SplitCode(a.zone + a.number, bays[i].section, bays[i].bay, bays[j].section, bays[j].bay);
      assert false;
    }
  }

  /** Codes whose digit runs after the same zone differ are different codes. */
  lemma NumberSplitsCode(zone: string, m: string, m2: string, p: string, q: string, p2: string, q2: string)
    requires AllDigits(m) && AllDigits(m2) && m != m2
    ensures zone + m + "-" + p + "-" + q != zone + m2 + "-" + p2 + "-" + q2
  {
    var r, r2 := p + "-" + q, p2 + "-" + q2;
    var c, c2 := zone + m + "-" + p + "-" + q, zone + m2 + "-" + p2 + "-" + q2;
    assert c == zone + (m + "-" + r);
    assert c2 == zone + (m2 + "-" + r2);
    assert c[|zone|..] == m + "-" + r;
    assert c2[|zone|..] == m2 + "-" + r2;
    FirstDashAfterDigits(m, r);
    FirstDashAfterDigits(m2, r2);
    if |m| == |m2| {
      assert c[|zone|..|zone| + |m|] == m;
      assert c2[|zone|..|zone| + |m2|] == m2;
    }
  }

  /**
   * Within one zone, the bays of two different aisles of a store whose
   * numbers match their keys never share a location code: the digit run
   * after the zone is the aisle number, and the numbers differ.
   */
  lemma CodesDistinctAcrossAisles(s: seq<Aisle>, i: nat, j: nat, k: nat, l: nat)
    requires UniqueIds(s) && AllIssued(s)
    requires i < j < |s| && s[i].zone == s[j].zone
    requires k < |BaysOf(s[i])| && l < |BaysOf(s[j])|
    ensures BaysOf(s[i])[k].locationCode != BaysOf(s[j])[l].locationCode
  {
    var a, b := s[i], s[j];
    var x, y := BaysOf(a)[k], BaysOf(b)[l];
    assert a in s && b in s;
    IssuedNumbersDiffer(a, b);
    CodeFormat(a, a.sections, k);
    CodeFormat(b, b.sections, l);
    NumberSplitsCode(a.zone, a.number, b.number, x.section, x.bay, y.section, y.bay);
  }
}
