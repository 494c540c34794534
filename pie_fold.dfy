/**
 * The slices of one sample's taxonomy pie chart (`generate_pie_charts`): the
 * sample's column of the taxonomy table without missing cells, only positive
 * abundances, most abundant first, and, when more than fifteen taxa remain,
 * the fifteen most abundant followed by one "Other" slice holding the rest.
 * Abundances are exact reals.
 */
module PieFold {
  import opened Wrappers
  import Sorting

  /** One row of the table restricted to ("Feature ID", sample); `None` is a missing cell. */
  datatype Cell = Cell(featureId: Option<string>, abundance: Option<real>)

  /** One slice of the chart: a taxon label and its abundance. */
  datatype Slice = Slice(taxon: string, abundance: real)

  /** How many taxa keep a slice of their own. */
  const TopCount: nat := 15

  /** The label of the slice that gathers the less abundant taxa. */
  const OtherLabel: string := "Other"

  /** `dropna()`: the rows whose feature id and abundance are both present, in table order. */
  function DropMissing(column: seq<Cell>): (r: seq<Slice>)
    ensures |r| <= |column|
    ensures forall x :: x in r <==> Cell(Some(x.taxon), Some(x.abundance)) in column
  {
    if column == [] then []
    else
      var rest := DropMissing(column[1..]);
      assert forall c :: c in column <==> c == column[0] || c in column[1..];
      match column[0]
      case Cell(Some(t), Some(a)) => [Slice(t, a)] + rest
      case _ => rest
  }

  /** The rows whose abundance is greater than zero, in table order. */
  function KeepPositive(slices: seq<Slice>): (r: seq<Slice>)
    ensures |r| <= |slices|
    ensures forall x :: x in r <==> x in slices && x.abundance > 0.0
  {
    if slices == [] then []
    else
      var rest := KeepPositive(slices[1..]);
      assert forall x :: x in slices <==> x == slices[0] || x in slices[1..];
      if slices[0].abundance > 0.0 then [slices[0]] + rest else rest
  }

  /** `dropna()` keeps every complete row, as often as it occurs in the column. */
  lemma {:induction false} DropMissingCounts(column: seq<Cell>)
    ensures forall x :: multiset(DropMissing(column))[x] == multiset(column)[Cell(Some(x.taxon), Some(x.abundance))]
    decreases |column|
  {
    if column != [] {
      DropMissingCounts(column[1..]);
      assert column == [column[0]] + column[1..];
    }
  }

  /** The `> 0` filter keeps every positive row, as often as it occurs, and no other. */
  lemma {:induction false} KeepPositiveCounts(slices: seq<Slice>)
    ensures forall x :: multiset(KeepPositive(slices))[x] == if x.abundance > 0.0 then multiset(slices)[x] else 0
    decreases |slices|
  {
    if slices != [] {
      KeepPositiveCounts(slices[1..]);
      assert slices == [slices[0]] + slices[1..];
    }
  }

  /** The order of `sort_values(ascending=False)`: `a` may come before `b`. */
  predicate AtLeast(a: Slice, b: Slice) {
    a.abundance >= b.abundance
  }

  lemma AtLeastTotalPreorder()
    ensures Sorting.TotalPreorder(AtLeast)
  {
  }

  /** Most abundant first; equal abundances keep their table order. */
  function SortDescending(slices: seq<Slice>): seq<Slice> {
    Sorting.SortBy(slices, AtLeast)
  }

  /** The total abundance of the slices (pandas `sum()`, here exact). */
  function Sum(slices: seq<Slice>): real {
    if slices == [] then 0.0 else slices[0].abundance + Sum(slices[1..])
  }

  /** The fifteen first slices, then one "Other" slice holding the sum of all later ones. */
  function FoldTail(ranked: seq<Slice>): seq<Slice> {
    if |ranked| > TopCount then
      ranked[..TopCount] + [Slice(OtherLabel, Sum(ranked[TopCount..]))]
    else ranked
  }

  /** The taxa of the sample that can appear in its chart. */
  function Positives(column: seq<Cell>): seq<Slice> {
    KeepPositive(DropMissing(column))
  }

  /** The positive taxa, most abundant first. */
  function Ranked(column: seq<Cell>): seq<Slice> {
    SortDescending(Positives(column))
  }

  /** The slices of the sample's pie chart, in drawing order. */
  function PieSlices(column: seq<Cell>): seq<Slice> {
    FoldTail(Ranked(column))
  }

  // ---------------------------------------------------------------------------
  // Sums

  lemma {:induction false} SumConcat(a: seq<Slice>, b: seq<Slice>)
    ensures Sum(a + b) == Sum(a) + Sum(b)
    decreases |a|
  {
    if a != [] {
      assert (a + b)[1..] == a[1..] + b;
      SumConcat(a[1..], b);
    } else {
      assert a + b == b;
    }
  }

  /** Inserting a slice into a ranking adds its abundance to the total. */
  lemma {:induction false} SumInsert(x: Slice, s: seq<Slice>)
    ensures Sum(Sorting.Insert(x, s, AtLeast)) == x.abundance + Sum(s)
    decreases |s|
  {
    if s == [] {
      assert [x][1..] == [];
    } else if AtLeast(x, s[0]) {
      assert ([x] + s)[1..] == s;
    } else {
      SumInsert(x, s[1..]);
      assert ([s[0]] + Sorting.Insert(x, s[1..], AtLeast))[1..] == Sorting.Insert(x, s[1..], AtLeast);
    }
  }

  /** Sorting does not change the total. */
  lemma {:induction false} SumSortDescending(s: seq<Slice>)
    ensures Sum(SortDescending(s)) == Sum(s)
    decreases |s|
  {
    if s != [] {
      SumSortDescending(s[1..]);
      SumInsert(s[0], SortDescending(s[1..]));
    }
  }

  /** The total of the column's complete cells with a positive abundance, read straight off the table. */
  function CellsTotal(column: seq<Cell>): real {
    if column == [] then 0.0
    else
      var here := match column[0]
        case Cell(Some(_), Some(a)) => if a > 0.0 then a else 0.0
        case _ => 0.0;
      here + CellsTotal(column[1..])
  }

  /** The positive taxa carry the whole positive abundance of the column, duplicates included. */
  lemma {:induction false} PositivesTotal(column: seq<Cell>)
    ensures Sum(Positives(column)) == CellsTotal(column)
    decreases |column|
  {
    if column != [] {
      PositivesTotal(column[1..]);
      var rest := DropMissing(column[1..]);
      match column[0]
      case Cell(Some(t), Some(a)) =>
        var x := Slice(t, a);
        assert DropMissing(column) == [x] + rest;
        assert ([x] + rest)[1..] == rest;
        if a > 0.0 {
          assert KeepPositive([x] + rest) == [x] + KeepPositive(rest);
          assert ([x] + KeepPositive(rest))[1..] == KeepPositive(rest);
        }
      case _ =>
    }
  }

  /** A non-empty run of positive abundances has a positive total. */
  lemma {:induction false} SumPositive(slices: seq<Slice>)
    requires slices != [] && forall i :: 0 <= i < |slices| ==> slices[i].abundance > 0.0
    ensures Sum(slices) > 0.0
    decreases |slices|
  {
    if |slices| > 1 {
      SumPositive(slices[1..]);
    }
  }

  // ---------------------------------------------------------------------------
  // Ranking and folding

  /** Sorting descending keeps every slice, as often as it occurs, and puts the most abundant first. */
  lemma SortDescendingSpec(slices: seq<Slice>)
    ensures multiset(SortDescending(slices)) == multiset(slices)
    ensures forall i, j :: 0 <= i < j < |SortDescending(slices)| ==>
              SortDescending(slices)[i].abundance >= SortDescending(slices)[j].abundance
  {
    AtLeastTotalPreorder();
    Sorting.SortBySorted(slices, AtLeast);
  }

  /** The ranked taxa are the positive taxa, most abundant first. */
  lemma RankedSortedPermutation(column: seq<Cell>)
    ensures multiset(Ranked(column)) == multiset(Positives(column))
    ensures forall i, j :: 0 <= i < j < |Ranked(column)| ==> Ranked(column)[i].abundance >= Ranked(column)[j].abundance
  {
    SortDescendingSpec(Positives(column));
  }

  /**
   * Folding keeps the total, yields at most sixteen slices, adds the "Other"
   * slice exactly when there are more than fifteen, and the named slices are the
   * first fifteen ranked ones.
   */
  lemma FoldTailShape(ranked: seq<Slice>)
    ensures |FoldTail(ranked)| <= TopCount + 1
    ensures |FoldTail(ranked)| == TopCount + 1 <==> |ranked| > TopCount
    ensures Sum(FoldTail(ranked)) == Sum(ranked)
    ensures |ranked| <= TopCount ==> FoldTail(ranked) == ranked
    ensures |ranked| > TopCount ==>
              && FoldTail(ranked)[..TopCount] == ranked[..TopCount]
              && FoldTail(ranked)[TopCount] == Slice(OtherLabel, Sum(ranked[TopCount..]))
  {
    if |ranked| > TopCount {
      var other := Slice(OtherLabel, Sum(ranked[TopCount..]));
      assert ranked == ranked[..TopCount] + ranked[TopCount..];
      SumConcat(ranked[..TopCount], ranked[TopCount..]);
      SumConcat(ranked[..TopCount], [other]);
      assert Sum([other]) == other.abundance;
      assert (ranked[..TopCount] + [other])[..TopCount] == ranked[..TopCount];
    }
  }

  /** The ranked taxa are as many as the positive taxa, and all positive. */
  lemma RankedPositive(column: seq<Cell>)
    ensures |Ranked(column)| == |Positives(column)|
    ensures forall i :: 0 <= i < |Ranked(column)| ==> Ranked(column)[i].abundance > 0.0
  {
    var positives, ranked := Positives(column), Ranked(column);
    RankedSortedPermutation(column);
    assert |ranked| == |positives| by {
      assert |multiset(ranked)| == |multiset(positives)|;
    }
    forall i | 0 <= i < |ranked| ensures ranked[i].abundance > 0.0 {
      assert ranked[i] in multiset(positives);
    }
  }

  /**
   * A sample's pie chart has at most sixteen slices, the sixteenth ("Other")
   * exactly when more than fifteen taxa are positive, and the same total
   * abundance as its positive taxa, so the percentages share one denominator.
   */
  lemma PieSlicesSize(column: seq<Cell>)
    ensures |PieSlices(column)| <= TopCount + 1
    ensures |PieSlices(column)| == TopCount + 1 <==> |Positives(column)| > TopCount
    ensures Sum(PieSlices(column)) == Sum(Positives(column)) == CellsTotal(column)
  {
    RankedSortedPermutation(column);
    RankedPositive(column);
    FoldTailShape(Ranked(column));
    SumSortDescending(Positives(column));
    PositivesTotal(column);
  }

  /** Every slice of the chart, "Other" included, has a positive abundance. */
  lemma PieSlicesPositive(column: seq<Cell>)
    ensures forall i :: 0 <= i < |PieSlices(column)| ==> PieSlices(column)[i].abundance > 0.0
  {
    var ranked, slices := Ranked(column), PieSlices(column);
    RankedPositive(column);
    FoldTailShape(ranked);
    if |ranked| > TopCount {
      assert forall i :: 0 <= i < TopCount ==> slices[i] == slices[..TopCount][i];
      SumPositive(ranked[TopCount..]);
    }
  }

  /**
   * The named slices come most abundant first, and each is at least as abundant
   * as every taxon folded into "Other".
   */
  lemma PieSlicesOrdered(column: seq<Cell>)
    ensures forall i, j :: 0 <= i < j < |PieSlices(column)| && j < TopCount ==>
              PieSlices(column)[i].abundance >= PieSlices(column)[j].abundance
    ensures forall i, k :: 0 <= i < TopCount && TopCount <= k < |Ranked(column)| ==>
              PieSlices(column)[i].abundance >= Ranked(column)[k].abundance
  {
    var ranked, slices := Ranked(column), PieSlices(column);
    RankedSortedPermutation(column);
    FoldTailShape(ranked);
    if |ranked| > TopCount {
      assert forall i :: 0 <= i < TopCount ==> slices[i] == slices[..TopCount][i] == ranked[i];
    }
  }

  /**
   * Up to fifteen positive taxa are drawn as they are; beyond that the fifteen
   * named slices and the taxa folded into "Other" are together exactly the
   * positive taxa, and "Other" holds the folded taxa's total.
   */
  lemma PieSlicesContents(column: seq<Cell>)
    ensures |Positives(column)| <= TopCount ==> multiset(PieSlices(column)) == multiset(Positives(column))
    ensures |Positives(column)| > TopCount ==>
              && PieSlices(column)[TopCount] == Slice(OtherLabel, Sum(Ranked(column)[TopCount..]))
              && multiset(PieSlices(column)[..TopCount]) + multiset(Ranked(column)[TopCount..])
                 == multiset(Positives(column))
  {
    var ranked := Ranked(column);
    RankedSortedPermutation(column);
    RankedPositive(column);
    FoldTailShape(ranked);
    if |ranked| > TopCount {
      assert ranked == ranked[..TopCount] + ranked[TopCount..];
    }
  }
}
