/**
  `generate_dataset`, from the known canonical keys to the list of output
  rows: how many keys are reused, which ones, and the two loops that append
  the fresh records and then one variant per reused key. Reading the prior
  file and writing the output are outside the model; the prior file arrives
  as a table.
 */
module Dataset {
  import opened Wrappers
  import opened Text
  import opened Records
  import opened Variation

  /**
    A table read from a prior output file: its column set and its rows. As
    in a data frame, every row carries exactly the table's columns, and each
    header name denotes one column.
   */
  datatype Frame = Frame(columns: set<Field>, rows: seq<Record>)

  type Table = f: Frame |
    && (forall c :: c in f.columns ==> IsHeaderColumn(c))
    && (forall i :: 0 <= i < |f.rows| ==> f.rows[i].Keys == f.columns)
    witness Frame({}, [])

  predicate Distinct(s: seq<string>) {
    forall i, j :: 0 <= i < j < |s| ==> s[i] != s[j]
  }

  predicate AllHaveKey(rows: seq<Record>) {
    forall i :: 0 <= i < |rows| ==> CanonicalId in rows[i]
  }

  /** The `canonical_id` column, row by row. */
  function ColumnOf(rows: seq<Record>): (c: seq<string>)
    requires AllHaveKey(rows)
    ensures |c| == |rows| && forall i :: 0 <= i < |rows| ==> c[i] == rows[i][CanonicalId]
  {
    seq(|rows|, i requires 0 <= i < |rows| => rows[i][CanonicalId])
  }

  /** The position of the first occurrence of `x` in `s`. */
  function FirstIndex(s: seq<string>, x: string): (k: nat)
    requires x in s
    ensures k < |s| && s[k] == x && x !in s[..k]
  {
    if s[0] == x then 0
    else
      var k := FirstIndex(s[1..], x);
      assert s[..k + 1] == [s[0]] + s[1..][..k];
      k + 1
  }

  /** Any occurrence with no earlier one is the first occurrence. */
  lemma FirstIndexUnique(s: seq<string>, x: string, k: nat)
    requires k < |s| && s[k] == x && x !in s[..k]
    ensures FirstIndex(s, x) == k
  {
  }

  /** `Series.unique()`: the distinct values, in order of first appearance (see `UniqueOrder`). */
  function Unique(s: seq<string>): (u: seq<string>)
    ensures Distinct(u)
    ensures forall x :: x in u <==> x in s
    ensures |u| <= |s| && (u == [] <==> s == [])
    decreases |s|
  {
    if s == [] then []
    else
      var u := Unique(s[..|s| - 1]);
      assert forall x :: x in s <==> x in s[..|s| - 1] || x == s[|s| - 1] by {
        assert s == s[..|s| - 1] + [s[|s| - 1]];
      }
      if s[|s| - 1] in u then u else u + [s[|s| - 1]]
  }

  /** `Unique` lists the values in the order in which they first occur. */
  lemma {:induction false} UniqueOrder(s: seq<string>)
    ensures forall i, j :: 0 <= i < j < |Unique(s)| ==> FirstIndex(s, Unique(s)[i]) < FirstIndex(s, Unique(s)[j])
    decreases |s|
  {
    if s != [] {
      var p, x := s[..|s| - 1], s[|s| - 1];
      UniqueOrder(p);
      forall y | y in p
        ensures FirstIndex(s, y) == FirstIndex(p, y)
      {
        var k := FirstIndex(p, y);
        assert s[..k] == p[..k];
        FirstIndexUnique(s, y, k);
      }
      if x !in Unique(p) {
        assert s[..|s| - 1] == p;
        FirstIndexUnique(s, x, |s| - 1);
      }
    }
  }

  /**
    `existing_df["canonical_id"].unique().tolist()` when a prior table was
    loaded, the empty list otherwise; a table without the column raises
    `KeyError`.
   */
  function KnownIds(existing: Option<Table>): (r: Result<seq<string>>)
    ensures r.Failure? <==> existing.Some? && CanonicalId !in existing.value.columns
    ensures r.Failure? ==> r.error == KeyError(FieldName(CanonicalId))
    ensures existing.None? ==> r == Success([])
    ensures r.Success? && existing.Some? ==>
              AllHaveKey(existing.value.rows) && Distinct(r.value) &&
              (forall x :: x in r.value <==> x in ColumnOf(existing.value.rows)) &&
              (r.value == [] <==> existing.value.rows == [])
  {
    if existing.None? then Success([])
    else if CanonicalId !in existing.value.columns then Failure(KeyError(FieldName(CanonicalId)))
    else Success(Unique(ColumnOf(existing.value.rows)))
  }

  /** The rows of the prior table, none when nothing was loaded. */
  function PriorRows(existing: Option<Table>): seq<Record> {
    if existing.Some? then existing.value.rows else []
  }

  /**
    `random.sample(pool, k)` with its index draws passed in: the draw at
    `step` picks one of the elements still in the pool.
   */
  function Sample(pool: seq<string>, k: nat, draw: nat -> nat, step: nat): (r: seq<string>)
    requires k <= |pool|
    ensures |r| == k
    ensures forall i :: 0 <= i < |r| ==> r[i] in pool
    ensures Distinct(pool) ==> Distinct(r)
    decreases k
  {
    if k == 0 then []
    else
      var i := draw(step) % |pool|;
      var rest := pool[..i] + pool[i + 1..];
      assert forall x :: x in rest ==> x in pool;
      assert Distinct(pool) ==> pool[i] !in rest && Distinct(rest) by {
        if Distinct(pool) {
          forall a, b | 0 <= a < b < |rest| ensures rest[a] != rest[b] {
            var pa := if a < i then a else a + 1;
            var pb := if b < i then b else b + 1;
            assert rest[a] == pool[pa] && rest[b] == pool[pb];
          }
          forall a | 0 <= a < |rest| ensures rest[a] != pool[i] {
            assert rest[a] == pool[if a < i then a else a + 1];
          }
        }
      }
      [pool[i]] + Sample(rest, k - 1, draw, step + 1)
  }

  /** Only the draws from `step` on decide the sample. */
  lemma {:induction false} SampleUsesLaterDraws(pool: seq<string>, k: nat, d1: nat -> nat, d2: nat -> nat, step: nat)
    requires k <= |pool|
    requires forall n: nat :: step <= n ==> d1(n) == d2(n)
    ensures Sample(pool, k, d1, step) == Sample(pool, k, d2, step)
    decreases k
  {
    if k > 0 {
      var i := d1(step) % |pool|;
      var rest := pool[..i] + pool[i + 1..];
      SampleUsesLaterDraws(rest, k - 1, d1, d2, step + 1);
      assert Sample(pool, k, d1, step) == [pool[i]] + Sample(rest, k - 1, d1, step + 1);
      assert Sample(pool, k, d2, step) == [pool[i]] + Sample(rest, k - 1, d2, step + 1);
    }
  }

  /** Removing position `i` from a distinct pool removes exactly its value. */
  lemma RemoveAt(pool: seq<string>, i: nat)
    requires Distinct(pool) && i < |pool|
    ensures var rest := pool[..i] + pool[i + 1..];
            forall x :: x in rest <==> x in pool && x != pool[i]
  {
    var rest := pool[..i] + pool[i + 1..];
    forall x ensures x in rest <==> x in pool && x != pool[i] {
      if x in pool && x != pool[i] {
        var a :| 0 <= a < |pool| && pool[a] == x;
        assert x == rest[if a < i then a else a - 1];
      }
      if x in rest {
        var b :| 0 <= b < |rest| && rest[b] == x;
        assert x == pool[if b < i then b else b + 1];
      }
    }
  }

  /** Removing a position from a distinct pool leaves a distinct pool. */
  lemma RemoveAtDistinct(pool: seq<string>, i: nat)
    requires Distinct(pool) && i < |pool|
    ensures Distinct(pool[..i] + pool[i + 1..])
  {
    var rest := pool[..i] + pool[i + 1..];
    forall a, b | 0 <= a < b < |rest| ensures rest[a] != rest[b] {
      assert rest[a] == pool[if a < i then a else a + 1];
      assert rest[b] == pool[if b < i then b else b + 1];
    }
  }

  /** The rest of a choice from a pool is drawn from what the pool has left. */
  lemma TailInRest(pool: seq<string>, r: seq<string>, i: nat)
    requires Distinct(pool) && Distinct(r) && r != [] && i < |pool| && pool[i] == r[0]
    requires forall j :: 0 <= j < |r| ==> r[j] in pool
    ensures forall j :: 0 <= j < |r| - 1 ==> r[1..][j] in pool[..i] + pool[i + 1..]
  {
    RemoveAt(pool, i);
    forall j | 0 <= j < |r| - 1 ensures r[1..][j] in pool[..i] + pool[i + 1..] {
      assert r[1..][j] == r[j + 1] && r[j + 1] != r[0];
    }
  }

  /** The tail of a distinct sequence is distinct and avoids its head. */
  lemma DistinctTail(r: seq<string>)
    requires Distinct(r) && r != []
    ensures Distinct(r[1..]) && r[0] !in r[1..]
  {
    forall a, b | 0 <= a < b < |r| - 1 ensures r[1..][a] != r[1..][b] {
      assert r[1..][a] == r[a + 1] && r[1..][b] == r[b + 1];
    }
  }

  /**
    Every sequence of `k` distinct pool elements is the sample of some
    draws: `random.sample` can yield each of its allowed outcomes.
   */
  lemma {:induction false} SampleReachesAll(pool: seq<string>, r: seq<string>, step: nat)
    requires Distinct(pool) && Distinct(r) && |r| <= |pool|
    requires forall i :: 0 <= i < |r| ==> r[i] in pool
    ensures exists draw: nat -> nat :: Sample(pool, |r|, draw, step) == r
    decreases |r|
  {
    if r == [] {
      var draw := (n: nat) => 0;
      assert Sample(pool, 0, draw, step) == r;
    } else {
      var i :| 0 <= i < |pool| && pool[i] == r[0];
      var rest, tail := pool[..i] + pool[i + 1..], r[1..];
      RemoveAtDistinct(pool, i);
      DistinctTail(r);
      TailInRest(pool, r, i);
      SampleReachesAll(rest, tail, step + 1);
      var later :| Sample(rest, |tail|, later, step + 1) == tail;
      SampleCons(pool, i, tail, later, step);
      assert r == [pool[i]] + tail;
    }
  }

  /** The draws `later`, preceded at `step` by the index `i`. */
  function DrawFirst(step: nat, i: nat, later: nat -> nat): nat -> nat {
    (n: nat) => if n == step then i else later(n)
  }

  /** Drawing index `i` first puts `pool[i]` in front of the sample of the rest. */
  lemma SampleCons(pool: seq<string>, i: nat, tail: seq<string>, later: nat -> nat, step: nat)
    requires i < |pool| && |tail| < |pool|
    requires Sample(pool[..i] + pool[i + 1..], |tail|, later, step + 1) == tail
    ensures Sample(pool, |tail| + 1, DrawFirst(step, i, later), step) == [pool[i]] + tail
  {
    var draw := DrawFirst(step, i, later);
    assert forall n: nat :: step + 1 <= n ==> draw(n) == later(n);
    SampleUsesLaterDraws(pool[..i] + pool[i + 1..], |tail|, draw, later, step + 1);
    SmallModulo(i, |pool|);
    SampleFirst(pool, |tail| + 1, draw, step, i);
  }

  /** A sample starts with the pool element at the first draw, then samples the rest. */
  lemma SampleFirst(pool: seq<string>, k: nat, draw: nat -> nat, step: nat, i: nat)
    requires 0 < k <= |pool| && i < |pool| && draw(step) % |pool| == i
    ensures Sample(pool, k, draw, step) == [pool[i]] + Sample(pool[..i] + pool[i + 1..], k - 1, draw, step + 1)
  {}

  /** The counts and keys `generate_dataset` settles on before its loops. */
  datatype Selection = Selection(overlap: int, newCount: int, reused: seq<string>)

  /**
    Lines 100-110: the known keys, `overlap_count`, `new_count` and the
    sample of reused keys. `requestedOverlap` stands for
    `int(n_rows * overlap_pct)`. A negative sample size with keys known
    raises `ValueError` in `random.sample`.
   */
  function Select(nRows: int, requestedOverlap: int, existing: Option<Table>, sampleDraw: nat -> nat)
    : (r: Result<Selection>)
    ensures KnownIds(existing).Failure? ==> r == Failure(KeyError(FieldName(CanonicalId)))
    ensures KnownIds(existing).Success? ==>
              var ids := KnownIds(existing).value;
              && (r.Failure? <==> ids != [] && requestedOverlap < 0)
              && (r.Failure? ==> r.error == NegativeSampleSize(requestedOverlap))
              && (r.Success? ==>
                    && r.value.overlap == (if ids == [] then 0 else requestedOverlap)
                    && r.value.newCount == nRows - r.value.overlap
                    && |r.value.reused| == Min(r.value.overlap, |ids|)
                    && Distinct(r.value.reused)
                    && forall j :: 0 <= j < |r.value.reused| ==> r.value.reused[j] in ids)
  {
    var known := KnownIds(existing);
    if known.Failure? then Failure(known.error)
    else
      var ids := known.value;
      var overlap := if |ids| > 0 then requestedOverlap else 0;
      if ids == [] then Success(Selection(overlap, nRows - overlap, []))
      else if Min(overlap, |ids|) < 0 then Failure(NegativeSampleSize(Min(overlap, |ids|)))
      else Success(Selection(overlap, nRows - overlap, Sample(ids, Min(overlap, |ids|), sampleDraw, 0)))
  }

  /** A prior table that has a `canonical_id` column, with `cids` among its values. */
  predicate KeysInPrior(prior: seq<Record>, cids: seq<string>) {
    AllHaveKey(prior) && forall j :: 0 <= j < |cids| ==> cids[j] in ColumnOf(prior)
  }

  /** Every reused key is the key of some prior row. */
  lemma ReusedKeysArePrior(nRows: int, requestedOverlap: int, existing: Option<Table>, sampleDraw: nat -> nat)
    requires Select(nRows, requestedOverlap, existing, sampleDraw).Success?
    ensures KeysInPrior(PriorRows(existing), Select(nRows, requestedOverlap, existing, sampleDraw).value.reused)
  {}

  /** `existing_df[existing_df["canonical_id"] == cid]`, in table order. */
  function MatchingRows(rows: seq<Record>, cid: string): (m: seq<Record>)
    requires AllHaveKey(rows)
    ensures forall i :: 0 <= i < |m| ==> m[i] in rows && m[i][CanonicalId] == cid
    ensures m != [] <==> cid in ColumnOf(rows)
    decreases |rows|
  {
    if rows == [] then []
    else
      var tail := MatchingRows(rows[1..], cid);
      assert ColumnOf(rows) == [rows[0][CanonicalId]] + ColumnOf(rows[1..]);
      if rows[0][CanonicalId] == cid then [rows[0]] + tail else tail
  }

  /** Every prior row that carries the key survives the filter. */
  lemma {:induction false} MatchingRowsComplete(rows: seq<Record>, cid: string, i: nat)
    requires AllHaveKey(rows) && i < |rows| && rows[i][CanonicalId] == cid
    ensures rows[i] in MatchingRows(rows, cid)
    decreases |rows|
  {
    if i > 0 {
      assert rows[1..][i - 1] == rows[i];
      MatchingRowsComplete(rows[1..], cid, i - 1);
    }
  }

  /** `.sample(1).iloc[0].to_dict()`: one matching row, picked by the drawn index. */
  function BaseRow(rows: seq<Record>, cid: string, pick: nat): (b: Record)
    requires AllHaveKey(rows) && cid in ColumnOf(rows)
    ensures b in rows && b[CanonicalId] == cid
  {
    var m := MatchingRows(rows, cid);
    m[pick % |m|]
  }

  /** Every prior row that carries the key is the base row for some pick. */
  lemma EveryMatchingRowCanBeBase(rows: seq<Record>, cid: string, i: nat)
    requires AllHaveKey(rows) && i < |rows| && rows[i][CanonicalId] == cid
    ensures cid in ColumnOf(rows)
    ensures exists pick: nat :: BaseRow(rows, cid, pick) == rows[i]
  {
    assert ColumnOf(rows)[i] == cid;
    var m := MatchingRows(rows, cid);
    MatchingRowsComplete(rows, cid, i);
    var k :| 0 <= k < |m| && m[k] == rows[i];
    SmallModulo(k, |m|);
    assert BaseRow(rows, cid, k) == m[k];
  }

  lemma SmallModulo(k: nat, n: nat)
    requires k < n
    ensures k % n == k
  {}

  /** The draws of one fresh row: its source label and the record's draws. */
  datatype NewRowDraw = NewRowDraw(source: SourceChoice, customer: CustomerDraw)

  /** The draws of one variant row: its new source label, the base row pick and the variation. */
  datatype VariantDraw = VariantDraw(source: SourceChoice, row: nat, variation: VariationDraw)

  // ------------------------------------------------ the rows, as values

  /** Fresh row `t`: `generate_customer` under the drawn source label, with no key supplied. */
  function FreshRecord(newDraw: nat -> NewRowDraw, t: nat): Record {
    GenerateCustomer(SOURCES[newDraw(t).source], None, newDraw(t).customer)
  }

  /** The rows of the first loop, in order. */
  function FreshRecords(newDraw: nat -> NewRowDraw, n: nat): (rows: seq<Record>)
    ensures |rows| == n
  {
    Tabulate((t: nat) => FreshRecord(newDraw, t), n)
  }

  /** The base row the variant of reused key `j` is built from. */
  function VariantBase(prior: seq<Record>, cids: seq<string>, variantDraw: nat -> VariantDraw, j: nat): Record
    requires KeysInPrior(prior, cids) && j < |cids|
  {
    BaseRow(prior, cids[j], variantDraw(j).row)
  }

  /**
    The row the second loop appends for reused key `j`: the variant of its
    base row with `source_system` overwritten by the drawn label; or the
    `KeyError` that stops the run.
   */
  function VariantRowOf(prior: seq<Record>, cids: seq<string>, variantDraw: nat -> VariantDraw, j: nat)
    : (r: Result<Record>)
    requires KeysInPrior(prior, cids) && j < |cids|
    ensures r.Failure? <==> MissingColumn(VariantBase(prior, cids, variantDraw, j).Keys, variantDraw(j).variation.rule).Some?
  {
    var vd := variantDraw(j);
    var v := Variant(VariantBase(prior, cids, variantDraw, j), vd.variation);
    if v.Failure? then Failure(v.error) else Success(v.value[SourceSystem := SOURCES[vd.source]])
  }

  /** The outcome of the second loop's pass for each reused key, in sample order. */
  function VariantResults(prior: seq<Record>, cids: seq<string>, variantDraw: nat -> VariantDraw)
    : (rs: seq<Result<Record>>)
    requires KeysInPrior(prior, cids)
    ensures |rs| == |cids|
  {
    seq(|cids|, j requires 0 <= j < |cids| => VariantRowOf(prior, cids, variantDraw, j))
  }

  /**
    What `generate_dataset` appends to `all_records`, or the exception that
    stops it: the fresh records, then one variant per reused key.
   */
  function DatasetRows(
    nRows: int,
    requestedOverlap: int,
    existing: Option<Table>,
    newDraw: nat -> NewRowDraw,
    sampleDraw: nat -> nat,
    variantDraw: nat -> VariantDraw)
    : Result<seq<Record>>
  {
    var selected := Select(nRows, requestedOverlap, existing, sampleDraw);
    if selected.Failure? then Failure(selected.error)
    else
      var sel := selected.value;
      ReusedKeysArePrior(nRows, requestedOverlap, existing, sampleDraw);
      var vs := Collect(VariantResults(PriorRows(existing), sel.reused, variantDraw));
      if vs.Failure? then Failure(vs.error)
      else Success(FreshRecords(newDraw, Max0(sel.newCount)) + vs.value)
  }

  // -------------------------------------------------------- the loops

  /** The first loop: `n` fresh records, each under a drawn source label. */
  method AppendFreshRecords(n: nat, newDraw: nat -> NewRowDraw) returns (rows: seq<Record>)
    ensures rows == FreshRecords(newDraw, n)
  {
    rows := [];
    var t := 0;
    while t < n
      invariant 0 <= t <= n && rows == FreshRecords(newDraw, t)
    {
      var rec := FreshRow(newDraw, t);
      FreshRecordsSnoc(newDraw, t);
      rows := rows + [rec];
      t := t + 1;
    }
  }

  /** One pass of the first loop: a source label, then `generate_customer` under it. */
  method FreshRow(newDraw: nat -> NewRowDraw, t: nat) returns (rec: Record)
    ensures rec == FreshRecord(newDraw, t)
  {
    var src := SOURCES[newDraw(t).source];
    rec := GenerateCustomer(src, None, newDraw(t).customer);
  }

  /** One more iteration of the first loop appends one more fresh row. */
  lemma FreshRecordsSnoc(newDraw: nat -> NewRowDraw, t: nat)
    ensures FreshRecords(newDraw, t + 1) == FreshRecords(newDraw, t) + [FreshRecord(newDraw, t)]
  {}

  /**
    One pass of the second loop: a prior row matching reused key `j`, its
    variant, and the new source label written over `source_system`.
   */
  method VariantRow(prior: seq<Record>, cids: seq<string>, variantDraw: nat -> VariantDraw, j: nat)
    returns (res: Result<Record>)
    requires KeysInPrior(prior, cids) && j < |cids|
    ensures res == VariantRowOf(prior, cids, variantDraw, j)
  {
    var vd := variantDraw(j);
    var src := SOURCES[vd.source];
    var base := BaseRow(prior, cids[j], vd.row);
    var variant := AddVariation(base, vd.variation);
    if variant.Failure? {
      return Failure(variant.error);
    }
    var v := variant.value;
    v := v[SourceSystem := src];
    return Success(v);
  }

  /**
    The second loop: for each reused key, in sample order, append its
    variant row to the rows so far; the first variant that misses a column
    stops the run with that `KeyError`.
   */
  method AppendVariants(all: seq<Record>, prior: seq<Record>, cids: seq<string>, variantDraw: nat -> VariantDraw)
    returns (res: Result<seq<Record>>)
    requires KeysInPrior(prior, cids)
    ensures var vs := Collect(VariantResults(prior, cids, variantDraw));
            res == if vs.Failure? then Failure(vs.error) else Success(all + vs.value)
  {
    ghost var rs := VariantResults(prior, cids, variantDraw);
    var rows := all;
    ghost var variants: seq<Record> := [];
    var j := 0;
    while j < |cids|
      invariant 0 <= j <= |cids| && rows == all + variants
      invariant Collect(rs[..j]) == Success(variants)
    {
      var variant := VariantRow(prior, cids, variantDraw, j);
      assert variant == rs[j];
      CollectStep(rs, j, variants);
      if variant.Failure? {
        CollectFailureSticks(rs, j + 1);
        return Failure(variant.error);
      }
      AppendAssociates(all, variants, variant.value);
      variants := variants + [variant.value];
      rows := rows + [variant.value];
      j := j + 1;
    }
    assert rs[..j] == rs;
    return Success(rows);
  }

  lemma AppendAssociates<T>(a: seq<T>, b: seq<T>, x: T)
    ensures a + b + [x] == a + (b + [x])
  {}

  /**
    `generate_dataset` up to the write: `n_rows` and the requested overlap,
    the prior table if one was loaded, and the draws of every loop
    iteration.
   */
  method GenerateDataset(
    nRows: int,
    requestedOverlap: int,
    existing: Option<Table>,
    newDraw: nat -> NewRowDraw,
    sampleDraw: nat -> nat,
    variantDraw: nat -> VariantDraw)
    returns (res: Result<seq<Record>>)
    ensures res == DatasetRows(nRows, requestedOverlap, existing, newDraw, sampleDraw, variantDraw)
  {
    var selected := Select(nRows, requestedOverlap, existing, sampleDraw);
    if selected.Failure? {
      return Failure(selected.error);
    }
    var sel := selected.value;
    ReusedKeysArePrior(nRows, requestedOverlap, existing, sampleDraw);
    var newRows := AppendFreshRecords(Max0(sel.newCount), newDraw);
    res := AppendVariants(newRows, PriorRows(existing), sel.reused, variantDraw);
  }

  // ------------------------------------------------- what the rows are

  /** Row `t` of the first loop is fresh record `t`. */
  lemma FreshRecordsAt(newDraw: nat -> NewRowDraw, n: nat, t: nat)
    requires t < n
    ensures FreshRecords(newDraw, n)[t] == FreshRecord(newDraw, t)
  {
    TabulateAt((t: nat) => FreshRecord(newDraw, t), n, t);
  }

  /**
    A fresh row is a `generate_customer` record under one of the source
    labels, with a new 12-digit canonical key.
   */
  lemma FreshRowFields(newDraw: nat -> NewRowDraw, t: nat)
    ensures var d := newDraw(t);
            var r := FreshRecord(newDraw, t);
            && IsCustomerRecord(r, SOURCES[d.source], None, d.customer)
            && r[SourceSystem] in SOURCES
            && r[CanonicalId] == d.customer.keyUuid[..12]
  {
    var d := newDraw(t);
    GenerateCustomerIsCustomerRecord(SOURCES[d.source], None, d.customer);
  }

  /** Fresh rows whose key draws differ in their first twelve digits get different canonical keys. */
  lemma FreshKeysDistinct(newDraw: nat -> NewRowDraw, t: nat, u: nat)
    requires newDraw(t).customer.keyUuid[..12] != newDraw(u).customer.keyUuid[..12]
    ensures FreshRecord(newDraw, t)[CanonicalId] != FreshRecord(newDraw, u)[CanonicalId]
  {
    FreshRowFields(newDraw, t);
    FreshRowFields(newDraw, u);
  }

  /**
    `row` is a variant of `base` whose `source_system` was then overwritten
    with `source`: putting the base's label back gives a fuzzy duplicate.
   */
  ghost predicate IsRelabelledVariant(row: Record, base: Record, d: VariationDraw, source: string) {
    && SourceSystem in base && SourceSystem in row
    && row[SourceSystem] == source
    && IsVariant(row[SourceSystem := base[SourceSystem]], base, d)
  }

  lemma OverwriteTwice<K, V>(m: map<K, V>, k: K, a: V, b: V)
    ensures m[k := a][k := b] == m[k := b]
  {}

  lemma OverwriteSame<K, V>(m: map<K, V>, k: K)
    requires k in m
    ensures m[k := m[k]] == m
  {}

  /** Relabelling a fuzzy duplicate keeps it one, up to the label. */
  lemma RelabelledVariant(v: Record, base: Record, d: VariationDraw, source: string)
    requires IsVariant(v, base, d)
    ensures IsRelabelledVariant(v[SourceSystem := source], base, d, source)
  {
    VariantKeepsIdentity(v, base, d);
    OverwriteTwice(v, SourceSystem, source, base[SourceSystem]);
    OverwriteSame(v, SourceSystem);
  }

  /** The fields a relabelled fuzzy duplicate of a keyed row carries. */
  lemma RelabelledFields(base: Record, vd: VariantDraw, row: Record)
    requires CanonicalId in base && Variant(base, vd.variation).Success?
    requires row == Variant(base, vd.variation).value[SourceSystem := SOURCES[vd.source]]
    ensures && IsRelabelledVariant(row, base, vd.variation, SOURCES[vd.source])
            && CanonicalId in row && row[CanonicalId] == base[CanonicalId]
            && SourceSystem in row && row[SourceSystem] in SOURCES
            && Email in row && IsNormalizedEmail(row[Email])
            && CustomerId in row && IsRowId(row[CustomerId], base[SourceSystem])
  {
    var v := Variant(base, vd.variation).value;
    VariantIsVariant(base, vd.variation);
    VariantKeepsIdentity(v, base, vd.variation);
    RelabelledVariant(v, base, vd.variation, SOURCES[vd.source]);
    assert row[Email] == v[Email] && row[CustomerId] == v[CustomerId];
  }

  /**
    A row of the second loop: the relabelled variant of a prior row carrying
    the reused key, with that key, the drawn label, a normalised email and a
    row identifier naming the base row's label.
   */
  lemma VariantRowFields(prior: seq<Record>, cids: seq<string>, variantDraw: nat -> VariantDraw, j: nat)
    requires KeysInPrior(prior, cids) && j < |cids|
    requires VariantRowOf(prior, cids, variantDraw, j).Success?
    ensures var base := VariantBase(prior, cids, variantDraw, j);
            var row := VariantRowOf(prior, cids, variantDraw, j).value;
            && base in prior && base[CanonicalId] == cids[j]
            && IsRelabelledVariant(row, base, variantDraw(j).variation, SOURCES[variantDraw(j).source])
            && CanonicalId in row && row[CanonicalId] == cids[j]
            && SourceSystem in row && row[SourceSystem] in SOURCES
            && Email in row && IsNormalizedEmail(row[Email])
            && CustomerId in row && IsRowId(row[CustomerId], base[SourceSystem])
  {
    var base := VariantBase(prior, cids, variantDraw, j);
    RelabelledFields(base, variantDraw(j), VariantRowOf(prior, cids, variantDraw, j).value);
  }

  // ----------------------------------------------------- the whole run

  /** The first `n` rows are `generate_customer` records under the drawn labels. */
  ghost predicate StartsWithFreshRows(rows: seq<Record>, n: nat, newDraw: nat -> NewRowDraw) {
    n <= |rows| &&
    forall t :: 0 <= t < n ==>
      IsCustomerRecord(rows[t], SOURCES[newDraw(t).source], None, newDraw(t).customer)
  }

  /**
    From position `n` on, the rows are one per reused key, in order, each
    carrying its key, a source label and a normalised email.
   */
  predicate EndsWithVariantRows(rows: seq<Record>, n: nat, cids: seq<string>) {
    |rows| == n + |cids| &&
    forall j :: 0 <= j < |cids| ==>
      var row := rows[n + j];
      && CanonicalId in row && row[CanonicalId] == cids[j]
      && SourceSystem in row && row[SourceSystem] in SOURCES
      && Email in row && IsNormalizedEmail(row[Email])
  }

  /** Rows that start with the first loop's rows start with `generate_customer` records under the drawn labels. */
  lemma FreshRowsFields(newDraw: nat -> NewRowDraw, n: nat, rest: seq<Record>)
    ensures StartsWithFreshRows(FreshRecords(newDraw, n) + rest, n, newDraw)
  {
    var rows := FreshRecords(newDraw, n) + rest;
    forall t | 0 <= t < n
      ensures IsCustomerRecord(rows[t], SOURCES[newDraw(t).source], None, newDraw(t).customer)
    {
      assert rows[t] == FreshRecords(newDraw, n)[t];
      FreshRecordsAt(newDraw, n, t);
      FreshRowFields(newDraw, t);
    }
  }

  /**
    When the second loop completes, its rows are, key by key, the variant
    rows: each carries its reused key, a source label and a normalised email.
   */
  lemma VariantRowsFields(prior: seq<Record>, cids: seq<string>, variantDraw: nat -> VariantDraw, vs: seq<Record>)
    requires KeysInPrior(prior, cids)
    requires Collect(VariantResults(prior, cids, variantDraw)) == Success(vs)
    ensures |vs| == |cids|
    ensures forall j :: 0 <= j < |cids| ==>
              && VariantRowOf(prior, cids, variantDraw, j) == Success(vs[j])
              && CanonicalId in vs[j] && vs[j][CanonicalId] == cids[j]
              && SourceSystem in vs[j] && vs[j][SourceSystem] in SOURCES
              && Email in vs[j] && IsNormalizedEmail(vs[j][Email])
  {
    var rs := VariantResults(prior, cids, variantDraw);
    CollectSuccess(rs);
    forall j | 0 <= j < |cids|
      ensures && VariantRowOf(prior, cids, variantDraw, j) == Success(vs[j])
              && CanonicalId in vs[j] && vs[j][CanonicalId] == cids[j]
              && SourceSystem in vs[j] && vs[j][SourceSystem] in SOURCES
              && Email in vs[j] && IsNormalizedEmail(vs[j][Email])
    {
      assert rs[j] == VariantRowOf(prior, cids, variantDraw, j);
      VariantRowFields(prior, cids, variantDraw, j);
    }
  }

  /** Rows that end with the completed second loop end with one row per reused key, carrying that key. */
  lemma VariantSuffixFields(prior: seq<Record>, cids: seq<string>, variantDraw: nat -> VariantDraw,
                            rows: seq<Record>, n: nat)
    requires KeysInPrior(prior, cids) && n <= |rows|
    requires Collect(VariantResults(prior, cids, variantDraw)) == Success(rows[n..])
    ensures EndsWithVariantRows(rows, n, cids)
  {
    VariantRowsFields(prior, cids, variantDraw, rows[n..]);
    forall j | 0 <= j < |cids|
      ensures rows[n + j] == rows[n..][j]
    {}
  }

  /** A successful run is the fresh rows followed by the completed second loop. */
  lemma DatasetRowsParts(
    nRows: int, requestedOverlap: int, existing: Option<Table>,
    newDraw: nat -> NewRowDraw, sampleDraw: nat -> nat, variantDraw: nat -> VariantDraw,
    sel: Selection, rows: seq<Record>)
    requires Select(nRows, requestedOverlap, existing, sampleDraw) == Success(sel)
    requires DatasetRows(nRows, requestedOverlap, existing, newDraw, sampleDraw, variantDraw) == Success(rows)
    ensures KeysInPrior(PriorRows(existing), sel.reused)
    ensures var vs := Collect(VariantResults(PriorRows(existing), sel.reused, variantDraw));
            vs.Success? && rows == FreshRecords(newDraw, Max0(sel.newCount)) + vs.value
  {
    ReusedKeysArePrior(nRows, requestedOverlap, existing, sampleDraw);
  }

  /** A successful run starts with `new_count` `generate_customer` records (none when it is negative). */
  lemma DatasetFreshRows(
    nRows: int, requestedOverlap: int, existing: Option<Table>,
    newDraw: nat -> NewRowDraw, sampleDraw: nat -> nat, variantDraw: nat -> VariantDraw,
    sel: Selection, rows: seq<Record>)
    requires Select(nRows, requestedOverlap, existing, sampleDraw) == Success(sel)
    requires DatasetRows(nRows, requestedOverlap, existing, newDraw, sampleDraw, variantDraw) == Success(rows)
    ensures StartsWithFreshRows(rows, Max0(sel.newCount), newDraw)
  {
    DatasetRowsParts(nRows, requestedOverlap, existing, newDraw, sampleDraw, variantDraw, sel, rows);
    var vs := Collect(VariantResults(PriorRows(existing), sel.reused, variantDraw)).value;
    FreshRowsFields(newDraw, Max0(sel.newCount), vs);
  }

  /**
    A successful run ends with one row per reused key, in sample order, each
    carrying its key, a source label and a normalised email; with the fresh
    rows before them, there are `new_count + |reused_ids|` rows when
    `new_count` is not negative.
   */
  lemma DatasetVariantRows(
    nRows: int, requestedOverlap: int, existing: Option<Table>,
    newDraw: nat -> NewRowDraw, sampleDraw: nat -> nat, variantDraw: nat -> VariantDraw,
    sel: Selection, rows: seq<Record>)
    requires Select(nRows, requestedOverlap, existing, sampleDraw) == Success(sel)
    requires DatasetRows(nRows, requestedOverlap, existing, newDraw, sampleDraw, variantDraw) == Success(rows)
    ensures sel.newCount >= 0 ==> |rows| == sel.newCount + |sel.reused|
    ensures sel.newCount < 0 ==> |rows| == |sel.reused|
    ensures EndsWithVariantRows(rows, Max0(sel.newCount), sel.reused)
  {
    DatasetRowsParts(nRows, requestedOverlap, existing, newDraw, sampleDraw, variantDraw, sel, rows);
    var vs := Collect(VariantResults(PriorRows(existing), sel.reused, variantDraw)).value;
    assert rows[Max0(sel.newCount)..] == vs;
    VariantSuffixFields(PriorRows(existing), sel.reused, variantDraw, rows, Max0(sel.newCount));
  }

  // ------------------------------------------------------ failures

  /**
    Every prior row has the table's columns, so whether a variant row can be
    built depends only on those columns and the drawn rule.
   */
  lemma VariantRowFailure(existing: Option<Table>, cids: seq<string>, variantDraw: nat -> VariantDraw, j: nat)
    requires KeysInPrior(PriorRows(existing), cids) && j < |cids|
    ensures existing.Some?
    ensures var missing := MissingColumn(existing.value.columns, variantDraw(j).variation.rule);
            var row := VariantRowOf(PriorRows(existing), cids, variantDraw, j);
            && (row.Failure? <==> missing.Some?)
            && (row.Failure? ==> row.error == KeyError(FieldName(missing.value)))
  {
    var base := VariantBase(PriorRows(existing), cids, variantDraw, j);
    var i :| 0 <= i < |PriorRows(existing)| && PriorRows(existing)[i] == base;
    assert base.Keys == existing.value.columns;
  }

  /** Some reused key's variant row cannot be built from the prior table's columns. */
  predicate SomeVariantUnreadable(existing: Option<Table>, cids: seq<string>, variantDraw: nat -> VariantDraw) {
    existing.Some? &&
    exists j :: 0 <= j < |cids| && MissingColumn(existing.value.columns, variantDraw(j).variation.rule).Some?
  }

  /** The second loop fails exactly when some reused key's rule reads a column the table lacks. */
  lemma VariantsFailure(existing: Option<Table>, cids: seq<string>, variantDraw: nat -> VariantDraw)
    requires KeysInPrior(PriorRows(existing), cids)
    ensures Collect(VariantResults(PriorRows(existing), cids, variantDraw)).Failure?
        <==> SomeVariantUnreadable(existing, cids, variantDraw)
  {
    var rs := VariantResults(PriorRows(existing), cids, variantDraw);
    CollectSuccess(rs);
    if cids != [] {
      VariantRowFailure(existing, cids, variantDraw, 0);
      forall j | 0 <= j < |cids|
        ensures rs[j].Failure? <==> MissingColumn(existing.value.columns, variantDraw(j).variation.rule).Some?
      {
        VariantRowFailure(existing, cids, variantDraw, j);
      }
      assert Collect(rs).Failure? <==> exists j :: 0 <= j < |rs| && rs[j].Failure?;
    }
  }

  /**
    A run fails exactly when the selection fails (`canonical_id` missing,
    or a negative sample size) or some reused key's variant lacks a column
    the drawn rule reads; the selection's own error comes first.
   */
  lemma DatasetFailure(
    nRows: int, requestedOverlap: int, existing: Option<Table>,
    newDraw: nat -> NewRowDraw, sampleDraw: nat -> nat, variantDraw: nat -> VariantDraw)
    ensures var selected := Select(nRows, requestedOverlap, existing, sampleDraw);
            var res := DatasetRows(nRows, requestedOverlap, existing, newDraw, sampleDraw, variantDraw);
            && (selected.Failure? ==> res == Failure(selected.error))
            && (selected.Success? ==>
                  (res.Failure? <==> SomeVariantUnreadable(existing, selected.value.reused, variantDraw)))
  {
    var selected := Select(nRows, requestedOverlap, existing, sampleDraw);
    if selected.Success? {
      ReusedKeysArePrior(nRows, requestedOverlap, existing, sampleDraw);
      VariantsFailure(existing, selected.value.reused, variantDraw);
    }
  }

  /**
    The first reused key whose variant lacks a column ends the run with the
    `KeyError` for the first column the drawn rule reads and the table lacks.
   */
  lemma DatasetFirstFailure(
    nRows: int, requestedOverlap: int, existing: Option<Table>,
    newDraw: nat -> NewRowDraw, sampleDraw: nat -> nat, variantDraw: nat -> VariantDraw,
    sel: Selection, k: nat)
    requires Select(nRows, requestedOverlap, existing, sampleDraw) == Success(sel)
    requires k < |sel.reused| && existing.Some?
    requires MissingColumn(existing.value.columns, variantDraw(k).variation.rule).Some?
    requires forall j :: 0 <= j < k ==> MissingColumn(existing.value.columns, variantDraw(j).variation.rule).None?
    ensures var missing := MissingColumn(existing.value.columns, variantDraw(k).variation.rule).value;
            DatasetRows(nRows, requestedOverlap, existing, newDraw, sampleDraw, variantDraw)
              == Failure(KeyError(FieldName(missing)))
  {
    var cids := sel.reused;
    ReusedKeysArePrior(nRows, requestedOverlap, existing, sampleDraw);
    var rs := VariantResults(PriorRows(existing), cids, variantDraw);
    forall j | 0 <= j < k ensures rs[j].Success? {
      VariantRowFailure(existing, cids, variantDraw, j);
    }
    VariantRowFailure(existing, cids, variantDraw, k);
    CollectFirstFailure(rs, k);
  }

  // ------------------------------------------------------ row count

  /**
    With an overlap in `[0, n_rows]`, a run yields at most `n_rows` rows, and
    exactly `n_rows` unless fewer keys are known than the overlap asks for;
    the shortfall is what the sample could not supply.
   */
  lemma DatasetRowCount(
    nRows: int, requestedOverlap: int, existing: Option<Table>,
    newDraw: nat -> NewRowDraw, sampleDraw: nat -> nat, variantDraw: nat -> VariantDraw,
    sel: Selection, rows: seq<Record>)
    requires 0 <= requestedOverlap <= nRows
    requires Select(nRows, requestedOverlap, existing, sampleDraw) == Success(sel)
    requires DatasetRows(nRows, requestedOverlap, existing, newDraw, sampleDraw, variantDraw) == Success(rows)
    ensures var ids := KnownIds(existing).value;
            && |rows| <= nRows
            && (|rows| == nRows <==> ids == [] || requestedOverlap <= |ids|)
            && (ids != [] ==> |rows| == nRows - requestedOverlap + Min(requestedOverlap, |ids|))
  {
    DatasetVariantRows(nRows, requestedOverlap, existing, newDraw, sampleDraw, variantDraw, sel, rows);
  }
}
