/** The aggregation step of the migration mismatch dashboard's `compute_stats`.

    A migration file lists, per customer, the product on the legacy system, the
    product it was migrated to and the SI reason code recorded for it. A row is
    a mismatch when the two products differ. From the rows the step derives the
    key metrics (customers, mismatches, mismatch rate), the mismatching rows
    themselves, and four grouped views of them: the customer ids per
    (legacy, migrated, reason) pattern, the counts per pattern (the input of the
    narrative analysis), the counts per reason code and the counts per product
    pair. A file with no mismatching row takes a separate path that reports
    zeros, empty tables and a fixed narrative, and asks for no analysis.

    Every key field is taken to be a non-null string. */
module MismatchDashboard {
  import opened Sorting
  import opened GroupBy

  /** One row of the migration file. */
  datatype Row = Row(customerId: string, legacyProduct: string, migratedProduct: string, siReasonCode: string)

  /** A row with the `is_mismatch` column added to it. */
  datatype FlaggedRow = FlaggedRow(row: Row, isMismatch: bool)

  /** The key of the per-pattern views. */
  datatype Pattern = Pattern(legacyProduct: string, migratedProduct: string, siReasonCode: string)

  /** The key of the per-product-pair view. */
  datatype ProductPair = ProductPair(legacyProduct: string, migratedProduct: string)

  predicate IsMismatch(r: Row)
  {
    r.legacyProduct != r.migratedProduct
  }

  // ---------------------------------------------------------------------------
  // The mismatch column, its sum and the filtered frame

  /** The frame with the `is_mismatch` column added. */
  function Flag(rows: seq<Row>): seq<FlaggedRow>
  {
    if rows == [] then []
    else Flag(rows[..|rows| - 1]) + [FlaggedRow(rows[|rows| - 1], IsMismatch(rows[|rows| - 1]))]
  }

  /** The sum of the `is_mismatch` column. */
  function CountFlagged(f: seq<FlaggedRow>): nat
  {
    if f == [] then 0 else CountFlagged(f[..|f| - 1]) + (if f[|f| - 1].isMismatch then 1 else 0)
  }

  /** The rows whose `is_mismatch` is true, in frame order. */
  function SelectFlagged(f: seq<FlaggedRow>): seq<FlaggedRow>
  {
    if f == [] then []
    else SelectFlagged(f[..|f| - 1]) + (if f[|f| - 1].isMismatch then [f[|f| - 1]] else [])
  }

  /** The four original columns, without `is_mismatch`. */
  function Project(f: seq<FlaggedRow>): seq<Row>
  {
    if f == [] then [] else Project(f[..|f| - 1]) + [f[|f| - 1].row]
  }

  /** `total_mismatches`. */
  function TotalMismatches(rows: seq<Row>): nat
  {
    CountFlagged(Flag(rows))
  }

  /** The `mismatches` frame. */
  function Mismatches(rows: seq<Row>): seq<FlaggedRow>
  {
    SelectFlagged(Flag(rows))
  }

  /** `impacted_customers`: the mismatching rows on their four original columns. */
  function ImpactedCustomers(rows: seq<Row>): seq<Row>
  {
    Project(Mismatches(rows))
  }

  /** The new column keeps every row and says, of each, whether its products differ. */
  lemma {:induction false} FlagSpec(rows: seq<Row>)
    ensures |Flag(rows)| == |rows|
    ensures forall i :: 0 <= i < |rows| ==> Flag(rows)[i] == FlaggedRow(rows[i], rows[i].legacyProduct != rows[i].migratedProduct)
  {
    if rows != [] {
      FlagSpec(rows[..|rows| - 1]);
    }
  }

  lemma {:induction false} SelectFlaggedCount(f: seq<FlaggedRow>)
    ensures |SelectFlagged(f)| == CountFlagged(f) <= |f|
    ensures forall i :: 0 <= i < |SelectFlagged(f)| ==> SelectFlagged(f)[i].isMismatch
  {
    if f != [] {
      SelectFlaggedCount(f[..|f| - 1]);
    }
  }

  /** Every row of the `mismatches` frame is a mismatch flagged as one, and
      there are `total_mismatches` of them. */
  lemma MismatchesSpec(rows: seq<Row>)
    ensures |Mismatches(rows)| == TotalMismatches(rows) <= |rows|
    ensures forall i :: 0 <= i < |Mismatches(rows)| ==>
      Mismatches(rows)[i].isMismatch && IsMismatch(Mismatches(rows)[i].row)
  {
    FlagSpec(rows);
    SelectFlaggedCount(Flag(rows));
    MismatchesFlaggedTruly(rows);
  }

  lemma {:induction false} MismatchesFlaggedTruly(rows: seq<Row>)
    ensures forall x :: x in Mismatches(rows) ==> x.isMismatch == IsMismatch(x.row)
  {
    if rows != [] {
      MismatchesFlaggedTruly(rows[..|rows| - 1]);
      assert Flag(rows)[..|rows| - 1] == Flag(rows[..|rows| - 1]) by { FlagSpec(rows[..|rows| - 1]); }
    }
  }

  /** A single row is kept exactly when its products differ. */
  lemma ImpactedCustomersOfRow(r: Row)
    ensures ImpactedCustomers([r]) == if r.legacyProduct != r.migratedProduct then [r] else []
  {
    assert [r][..0] == [];
    var f := FlaggedRow(r, IsMismatch(r));
    assert Flag([r]) == [f];
    assert [f][..0] == [];
    if IsMismatch(r) {
      assert SelectFlagged([f]) == [f];
      assert Project([f]) == [r];
    } else {
      assert SelectFlagged([f]) == [];
    }
  }

  lemma {:induction false} FlagConcat(a: seq<Row>, b: seq<Row>)
    ensures Flag(a + b) == Flag(a) + Flag(b)
  {
    if b != [] {
      assert (a + b)[..|a + b| - 1] == a + b[..|b| - 1];
      FlagConcat(a, b[..|b| - 1]);
    } else {
      assert a + b == a;
    }
  }

  lemma {:induction false} SelectProjectConcat(f: seq<FlaggedRow>, g: seq<FlaggedRow>)
    ensures SelectFlagged(f + g) == SelectFlagged(f) + SelectFlagged(g)
    ensures Project(f + g) == Project(f) + Project(g)
  {
    if g != [] {
      assert (f + g)[..|f + g| - 1] == f + g[..|g| - 1];
      SelectProjectConcat(f, g[..|g| - 1]);
    } else {
      assert f + g == f;
    }
  }

  /** The filter keeps the rows' order: it treats each part of the file on its own. */
  lemma ImpactedCustomersConcat(a: seq<Row>, b: seq<Row>)
    ensures ImpactedCustomers(a + b) == ImpactedCustomers(a) + ImpactedCustomers(b)
  {
    FlagConcat(a, b);
    SelectProjectConcat(Flag(a), Flag(b));
    SelectProjectConcat(SelectFlagged(Flag(a)), SelectFlagged(Flag(b)));
  }

  /** `impacted_customers` holds each mismatching row as often as the file
      does, and no other row. */
  lemma {:induction false} ImpactedCustomersMembers(rows: seq<Row>)
    ensures forall r :: multiset(ImpactedCustomers(rows))[r] == if IsMismatch(r) then multiset(rows)[r] else 0
    ensures forall r :: r in ImpactedCustomers(rows) <==> r in rows && r.legacyProduct != r.migratedProduct
  {
    if rows != [] {
      var init, last := rows[..|rows| - 1], rows[|rows| - 1];
      assert rows == init + [last];
      ImpactedCustomersMembers(init);
      ImpactedCustomersConcat(init, [last]);
      ImpactedCustomersOfRow(last);
    }
  }

  /** `total_mismatches` counts the mismatching rows: it is at most the number
      of rows, and 0 exactly when no row's products differ. */
  lemma TotalMismatchesSpec(rows: seq<Row>)
    ensures TotalMismatches(rows) == |ImpactedCustomers(rows)| <= |rows|
    ensures TotalMismatches(rows) == 0 <==> forall r :: r in rows ==> r.legacyProduct == r.migratedProduct
    ensures Mismatches(rows) == [] <==> TotalMismatches(rows) == 0
  {
    MismatchesSpec(rows);
    ProjectLength(Mismatches(rows));
    ImpactedCustomersMembers(rows);
    if TotalMismatches(rows) != 0 {
      assert ImpactedCustomers(rows)[0] in ImpactedCustomers(rows);
    }
  }

  lemma {:induction false} ProjectLength(f: seq<FlaggedRow>)
    ensures |Project(f)| == |f|
  {
    if f != [] {
      ProjectLength(f[..|f| - 1]);
    }
  }

  // ---------------------------------------------------------------------------
  // The mismatch rate

  /** `mismatch_rate`, in percent, as an exact number; 0 for a file without rows. */
  function MismatchRate(rows: seq<Row>): real
  {
    if |rows| > 0 then TotalMismatches(rows) as real / |rows| as real * 100.0 else 0.0
  }

  /** `m` out of `n`, as a percentage. */
  lemma Percentage(m: real, n: real)
    requires 0.0 <= m <= n && n > 0.0
    ensures 0.0 <= m / n * 100.0 <= 100.0
    ensures m / n * 100.0 == 0.0 <==> m == 0.0
    ensures m / n * 100.0 == 100.0 <==> m == n
    ensures m / n * 100.0 * n == m * 100.0
  {
    var q := m / n;
    assert q * n == m;
    assert q == 1.0 <==> m == n;
  }

  /** The rate is a percentage: between 0 and 100, 0 exactly when nothing
      mismatches, 100 exactly when every row of a non-empty file does. */
  lemma MismatchRateSpec(rows: seq<Row>)
    ensures 0.0 <= MismatchRate(rows) <= 100.0
    ensures MismatchRate(rows) == 0.0 <==> TotalMismatches(rows) == 0
    ensures MismatchRate(rows) == 100.0 <==> |rows| > 0 && TotalMismatches(rows) == |rows|
    ensures |rows| > 0 ==> MismatchRate(rows) * |rows| as real == TotalMismatches(rows) as real * 100.0
  {
    TotalMismatchesSpec(rows);
    if |rows| > 0 {
      Percentage(TotalMismatches(rows) as real, |rows| as real);
    } else {
      assert rows == [];
    }
  }

  // ---------------------------------------------------------------------------
  // The grouped views

  function PatternOf(f: FlaggedRow): Pattern
  {
    Pattern(f.row.legacyProduct, f.row.migratedProduct, f.row.siReasonCode)
  }

  function PairOf(f: FlaggedRow): ProductPair
  {
    ProductPair(f.row.legacyProduct, f.row.migratedProduct)
  }

  function ReasonOf(f: FlaggedRow): string
  {
    f.row.siReasonCode
  }

  function CustomerIdOf(f: FlaggedRow): string
  {
    f.row.customerId
  }

  /** The order `groupby` lists patterns in: by legacy product, then migrated
      product, then reason code. */
  predicate PatternLe(p: Pattern, q: Pattern)
  {
    if p.legacyProduct != q.legacyProduct then StrLe(p.legacyProduct, q.legacyProduct)
    else if p.migratedProduct != q.migratedProduct then StrLe(p.migratedProduct, q.migratedProduct)
    else StrLe(p.siReasonCode, q.siReasonCode)
  }

  predicate GroupPatternLe(a: Group<Pattern, string>, b: Group<Pattern, string>)
  {
    PatternLe(a.key, b.key)
  }

  /** The pattern order relates every two patterns one way or the other. */
  lemma PatternOrderStronglyConnected()
    ensures StronglyConnected(GroupPatternLe)
  {
    forall a: Group<Pattern, string>, b: Group<Pattern, string> ensures GroupPatternLe(a, b) || GroupPatternLe(b, a) {
      StrLeTotal(a.key.legacyProduct, b.key.legacyProduct);
      StrLeTotal(a.key.migratedProduct, b.key.migratedProduct);
      StrLeTotal(a.key.siReasonCode, b.key.siReasonCode);
    }
  }

  /** Two patterns that are each at most the other are the same pattern. */
  lemma PatternLeAntisymmetric(p: Pattern, q: Pattern)
    requires PatternLe(p, q) && PatternLe(q, p)
    ensures p == q
  {
    if p.legacyProduct == q.legacyProduct && p.migratedProduct == q.migratedProduct {
      StrLeAntisymmetric(p.siReasonCode, q.siReasonCode);
    } else if p.legacyProduct == q.legacyProduct {
      StrLeAntisymmetric(p.migratedProduct, q.migratedProduct);
    } else {
      StrLeAntisymmetric(p.legacyProduct, q.legacyProduct);
    }
  }

  /** The pattern order is transitive. */
  lemma PatternLeTransitive(p: Pattern, q: Pattern, r: Pattern)
    requires PatternLe(p, q) && PatternLe(q, r)
    ensures PatternLe(p, r)
  {
    if p.legacyProduct != q.legacyProduct || q.legacyProduct != r.legacyProduct {
      LexStep(p.legacyProduct, q.legacyProduct, r.legacyProduct);
    } else if p.migratedProduct != q.migratedProduct || q.migratedProduct != r.migratedProduct {
      LexStep(p.migratedProduct, q.migratedProduct, r.migratedProduct);
    } else {
      StrLeTransitive(p.siReasonCode, q.siReasonCode, r.siReasonCode);
    }
  }

  /** One field of a lexicographic comparison: when `a` is at most `b` and `b`
      at most `c`, each strictly where they differ, and not all three agree,
      then `a` differs from `c` and is below it. */
  lemma LexStep(a: string, b: string, c: string)
    requires a != b || b != c
    requires a != b ==> StrLe(a, b)
    requires b != c ==> StrLe(b, c)
    ensures a != c && StrLe(a, c)
  {
    if a != b && b != c {
      StrLeTransitive(a, b, c);
      if a == c {
        StrLeAntisymmetric(a, b);
      }
    }
  }

  /** On `impacted`'s rows the pattern order is a total order on keys. */
  lemma PatternOrderIsTotal()
    ensures StronglyConnected(GroupPatternLe)
    ensures Transitive(GroupPatternLe)
    ensures KeyAntisymmetric(GroupPatternLe)
  {
    PatternOrderStronglyConnected();
    forall a: Group<Pattern, string>, b: Group<Pattern, string>, c: Group<Pattern, string> | GroupPatternLe(a, b) && GroupPatternLe(b, c)
      ensures GroupPatternLe(a, c)
    {
      PatternLeTransitive(a.key, b.key, c.key);
    }
    forall a: Group<Pattern, string>, b: Group<Pattern, string> | GroupPatternLe(a, b) && GroupPatternLe(b, a)
      ensures a.key == b.key
    {
      PatternLeAntisymmetric(a.key, b.key);
    }
  }

  /** `impacted`: the customer ids of the mismatching rows per pattern, in
      pattern order. */
  function Impacted(rows: seq<Row>): seq<Group<Pattern, string>>
  {
    PatternOrderStronglyConnected();
    SortBy(Collect(Mismatches(rows), PatternOf, CustomerIdOf), GroupPatternLe)
  }

  /** `summary`: the number of mismatching rows per pattern, most frequent first. */
  function Summary(rows: seq<Row>): seq<Entry<Pattern>>
  {
    SortByCountDesc(Size(Mismatches(rows), PatternOf))
  }

  /** `by_reason`: the number of mismatching rows per reason code, most frequent first. */
  function ByReason(rows: seq<Row>): seq<Entry<string>>
  {
    SortByCountDesc(Size(Mismatches(rows), ReasonOf))
  }

  /** `by_pair`: the number of mismatching rows per product pair, most frequent first. */
  function ByPair(rows: seq<Row>): seq<Entry<ProductPair>>
  {
    SortByCountDesc(Size(Mismatches(rows), PairOf))
  }

  /** `impacted` has one row per pattern that occurs among the mismatches,
      listing the customer ids of that pattern's rows in file order; patterns
      ascend; together the lists hold every mismatching row's customer id once. */
  lemma ImpactedSpec(rows: seq<Row>)
    ensures IsGroupTable(Impacted(rows), Mismatches(rows), PatternOf, CustomerIdOf)
    ensures Sorted(Impacted(rows), GroupPatternLe)
    ensures multiset(Flatten(Impacted(rows))) == multiset(Column(Mismatches(rows), CustomerIdOf))
  {
    PatternOrderStronglyConnected();
    var g := Collect(Mismatches(rows), PatternOf, CustomerIdOf);
    CollectSpec(Mismatches(rows), PatternOf, CustomerIdOf);
    PermutedGroupTable(g, Impacted(rows), Mismatches(rows), PatternOf, CustomerIdOf);
  }

  /** The pattern order leaves pandas no freedom: every correct `impacted`
      table whose patterns ascend is `Impacted(rows)`, whatever order the
      groups were formed in. */
  lemma ImpactedUnique(rows: seq<Row>, g: seq<Group<Pattern, string>>)
    requires IsGroupTable(g, Mismatches(rows), PatternOf, CustomerIdOf)
    requires Sorted(g, GroupPatternLe)
    ensures g == Impacted(rows)
  {
    ImpactedSpec(rows);
    PatternOrderIsTotal();
    var t := Impacted(rows);
    assert KeySet(g) == KeySet(t);
    forall k ensures Lookup(g, k, []) == Lookup(t, k, []) {
      assert MembersOf(g, k) == MembersOf(t, k);
    }
    SortedTablesEqual(g, t, GroupPatternLe, []);
  }

  /** `summary` has one row per pattern that occurs among the mismatches,
      with that pattern's row count; counts sum to `total_mismatches` and
      never increase down the table. */
  lemma SummarySpec(rows: seq<Row>)
    ensures IsSizeTable(Summary(rows), Mismatches(rows), PatternOf)
    ensures Total(Summary(rows)) == TotalMismatches(rows)
    ensures NonIncreasing(Summary(rows))
  {
    SizeSortedByCount(Mismatches(rows), PatternOf);
    MismatchesSpec(rows);
  }

  /** `by_reason`: each reason code of a mismatching row once, with its row
      count (at least 1); counts sum to `total_mismatches` and never increase. */
  lemma ByReasonSpec(rows: seq<Row>)
    ensures IsSizeTable(ByReason(rows), Mismatches(rows), ReasonOf)
    ensures Total(ByReason(rows)) == TotalMismatches(rows)
    ensures NonIncreasing(ByReason(rows))
  {
    SizeSortedByCount(Mismatches(rows), ReasonOf);
    MismatchesSpec(rows);
  }

  /** `by_pair`: each (legacy, migrated) pair of a mismatching row once, with
      its row count (at least 1); counts sum to `total_mismatches` and never
      increase. */
  lemma ByPairSpec(rows: seq<Row>)
    ensures IsSizeTable(ByPair(rows), Mismatches(rows), PairOf)
    ensures Total(ByPair(rows)) == TotalMismatches(rows)
    ensures NonIncreasing(ByPair(rows))
  {
    SizeSortedByCount(Mismatches(rows), PairOf);
    MismatchesSpec(rows);
  }

  /** Each pattern's list of customer ids in `impacted` is as long as its
      count in `summary`, and both views have the same patterns. */
  lemma ImpactedMatchesSummary(rows: seq<Row>)
    ensures KeySet(Impacted(rows)) == KeySet(Summary(rows))
    ensures forall p :: |MembersOf(Impacted(rows), p)| == CountOf(Summary(rows), p)
  {
    ImpactedSpec(rows);
    SummarySpec(rows);
    GroupsMatchSizes(Impacted(rows), Summary(rows), Mismatches(rows), PatternOf, CustomerIdOf);
  }

  // ---------------------------------------------------------------------------
  // compute_stats

  /** The key metrics the text box shows. */
  datatype Kpi = Kpi(totalCustomers: nat, totalMismatches: nat, mismatchRate: real)

  /** The narrative: either the fixed text of the zero-mismatch path, or the
      analysis the language model is asked for, with the two tables it is given. */
  datatype Narrative =
    | FixedText(text: string)
    | LlmAnalysis(summary: seq<Entry<Pattern>>, impacted: seq<Group<Pattern, string>>)

  /** What one run produces: the key metrics, the reason and pair tables, the
      narrative, and the contents of the two customer files. */
  datatype Stats = Stats(
    kpi: Kpi,
    byReason: seq<Entry<string>>,
    byPair: seq<Entry<ProductPair>>,
    narrative: Narrative,
    impactedByPattern: seq<Group<Pattern, string>>,
    impactedCustomers: seq<Row>)

  const NoMismatchNarrative: string :=
    "## Overall summary and priorities\n"
    + "No mismatches were detected in this migration file.\n\n"
    + "## Detailed analysis by top patterns\n"
    + "No mismatch patterns to analyse. No remediation actions are required."

  /** `compute_stats` on the rows of the uploaded file. */
  function ComputeStats(rows: seq<Row>): Stats
  {
    if Mismatches(rows) == [] then
      Stats(Kpi(|rows|, 0, 0.0), [], [], FixedText(NoMismatchNarrative), [], [])
    else
      Stats(
        Kpi(|rows|, TotalMismatches(rows), MismatchRate(rows)),
        ByReason(rows),
        ByPair(rows),
        LlmAnalysis(Summary(rows), Impacted(rows)),
        Impacted(rows),
        ImpactedCustomers(rows))
  }

  /** The metrics are those of the file on both paths: the zeros the
      zero-mismatch path writes out are its true count and rate. */
  lemma ComputeStatsKpi(rows: seq<Row>)
    ensures ComputeStats(rows).kpi == Kpi(|rows|, TotalMismatches(rows), MismatchRate(rows))
  {
    TotalMismatchesSpec(rows);
    MismatchRateSpec(rows);
  }

  /** The zero-mismatch guard: taken exactly when no row's products differ;
      it then returns empty tables and files and the fixed narrative, and the
      language model is not asked for anything. Otherwise the model is asked
      about `summary` and `impacted`. */
  lemma ComputeStatsGuard(rows: seq<Row>)
    ensures ComputeStats(rows).narrative.FixedText? <==> forall r :: r in rows ==> r.legacyProduct == r.migratedProduct
    ensures ComputeStats(rows).narrative.FixedText? ==>
      && ComputeStats(rows).narrative.text == NoMismatchNarrative
      && ComputeStats(rows).kpi == Kpi(|rows|, 0, 0.0)
      && ComputeStats(rows).byReason == [] && ComputeStats(rows).byPair == []
      && ComputeStats(rows).impactedByPattern == [] && ComputeStats(rows).impactedCustomers == []
    ensures ComputeStats(rows).narrative.LlmAnalysis? ==>
      ComputeStats(rows).narrative == LlmAnalysis(Summary(rows), Impacted(rows))
  {
    TotalMismatchesSpec(rows);
  }

  /** On both paths the reason and pair tables are the grouped counts of
      the mismatching rows, summing to the reported `total_mismatches`,
      largest first; the customer files are `impacted` and
      `impacted_customers`. */
  lemma ComputeStatsTables(rows: seq<Row>)
    ensures IsSizeTable(ComputeStats(rows).byReason, Mismatches(rows), ReasonOf)
    ensures Total(ComputeStats(rows).byReason) == ComputeStats(rows).kpi.totalMismatches
    ensures NonIncreasing(ComputeStats(rows).byReason)
    ensures IsSizeTable(ComputeStats(rows).byPair, Mismatches(rows), PairOf)
    ensures Total(ComputeStats(rows).byPair) == ComputeStats(rows).kpi.totalMismatches
    ensures NonIncreasing(ComputeStats(rows).byPair)
    ensures ComputeStats(rows).impactedByPattern == Impacted(rows)
    ensures ComputeStats(rows).impactedCustomers == ImpactedCustomers(rows)
  {
    ComputeStatsKpi(rows);
    ByReasonSpec(rows);
    ByPairSpec(rows);
    TotalMismatchesSpec(rows);
    if Mismatches(rows) == [] {
      assert Impacted(rows) == [];
    }
  }
}
