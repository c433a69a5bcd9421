/**
 * The reconciliation proper: overrides sharing a composite key collapse to
 * one carrying their maximum rate, the planned matrix is left-joined onto
 * them, the attached rate replaces billRate wherever it is present, and the
 * attached column is dropped again.
 */
module Reconciler {
  import opened Wrappers
  import opened Rows

  function Max(a: real, b: real): (m: real)
    ensures m >= a && m >= b && (m == a || m == b)
  {
    if a < b then b else a
  }

  /** Some override carries key `k`. */
  predicate HasKey(os: seq<Override>, k: Key) {
    exists i :: 0 <= i < |os| && os[i].key == k
  }

  /** Keys of a sequence and of its prefix without the last element. */
  lemma HasKeyInit(os: seq<Override>, k: Key)
    requires os != []
    ensures HasKey(os, k) <==> HasKey(os[..|os| - 1], k) || os[|os| - 1].key == k
  {
    var init := os[..|os| - 1];
    assert forall i :: 0 <= i < |init| ==> init[i] == os[i];
    if HasKey(os, k) && os[|os| - 1].key != k {
      var i :| 0 <= i < |os| && os[i].key == k;
      assert init[i].key == k;
    }
  }

  /** Keys of a sequence and of its suffix without the first element. */
  lemma HasKeyTail(os: seq<Override>, k: Key)
    requires os != []
    ensures HasKey(os, k) <==> os[0].key == k || HasKey(os[1..], k)
  {
    var tail := os[1..];
    assert forall i :: 0 <= i < |tail| ==> tail[i] == os[i + 1];
    if HasKey(os, k) && os[0].key != k {
      var i :| 0 <= i < |os| && os[i].key == k;
      assert tail[i - 1].key == k;
    }
  }

  /** The largest rate among the overrides with key `k`. */
  function MaxRate(os: seq<Override>, k: Key): (m: real)
    requires HasKey(os, k)
    ensures exists i :: 0 <= i < |os| && os[i].key == k && os[i].rate == m
    ensures forall i :: 0 <= i < |os| && os[i].key == k ==> os[i].rate <= m
    decreases |os|
  {
    var init, last := os[..|os| - 1], os[|os| - 1];
    HasKeyInit(os, k);
    assert forall i :: 0 <= i < |init| ==> init[i] == os[i];
    if last.key != k then MaxRate(init, k)
    else if HasKey(init, k) then Max(MaxRate(init, k), last.rate)
    else last.rate
  }

  /** No key occurs twice. */
  predicate Unique(cs: seq<Override>) {
    cs == [] || (!HasKey(cs[1..], cs[0].key) && Unique(cs[1..]))
  }

  /** The rate of the first override with key `k`. */
  function Lookup(cs: seq<Override>, k: Key): (r: Option<real>)
    ensures r.None? <==> !HasKey(cs, k)
  {
    if cs == [] then None
    else
      HasKeyTail(cs, k);
      if cs[0].key == k then Some(cs[0].rate) else Lookup(cs[1..], k)
  }

  /** The collapsed rate for `k` once override `o` is folded into a table that had `prior`. */
  function Folded(prior: Option<real>, o: Override): real {
    match prior
    case None => o.rate
    case Some(v) => Max(v, o.rate)
  }

  /** Folds one override into a collapsed table. */
  function Insert(cs: seq<Override>, o: Override): (r: seq<Override>)
    ensures forall k :: Lookup(r, k) == if k == o.key then Some(Folded(Lookup(cs, k), o)) else Lookup(cs, k)
    ensures Unique(cs) ==> Unique(r)
  {
    if cs == [] then [o]
    else if cs[0].key == o.key then [Override(o.key, Max(cs[0].rate, o.rate))] + cs[1..]
    else
      var rest := Insert(cs[1..], o);
      var r := [cs[0]] + rest;
      assert r[1..] == rest;
      HasKeyTail(cs, cs[0].key);
      assert !HasKey(cs[1..], cs[0].key) ==> !HasKey(rest, cs[0].key) by {
        if HasKey(rest, cs[0].key) {
          assert Lookup(rest, cs[0].key).Some?;
        }
      }
      r
  }

  /**
   * The override table grouped by key: one override per key, whose rate is
   * the maximum of the rates carrying that key.
   */
  function Collapse(os: seq<Override>): (cs: seq<Override>)
    ensures Unique(cs)
    ensures forall k :: Lookup(cs, k) == if HasKey(os, k) then Some(MaxRate(os, k)) else None
  {
    if os == [] then []
    else
      var init, last := os[..|os| - 1], os[|os| - 1];
      var prior := Collapse(init);
      var cs := Insert(prior, last);
      assert forall k :: Lookup(cs, k) == if HasKey(os, k) then Some(MaxRate(os, k)) else None by {
        forall k ensures Lookup(cs, k) == if HasKey(os, k) then Some(MaxRate(os, k)) else None {
          HasKeyInit(os, k);
        }
      }
      cs
  }

  /** The rates of the overrides whose key equals the row key `key`, in order. */
  function MatchRates(cs: seq<Override>, key: Option<Key>): seq<real> {
    if cs == [] then []
    else (if key == Some(cs[0].key) then [cs[0].rate] else []) + MatchRates(cs[1..], key)
  }

  /**
   * A planned row joined to the overrides: one joined row per matching
   * override, or the row once with nothing attached when none matches.
   */
  function JoinRow(row: PlannedRow, cs: seq<Override>): (j: seq<JoinedRow>)
    ensures |j| >= 1
  {
    var m := MatchRates(cs, PlannedKey(row));
    if m == [] then [JoinedRow(row, None)]
    else seq(|m|, i requires 0 <= i < |m| => JoinedRow(row, Some(m[i])))
  }

  /** The left join of the planned matrix onto the overrides, in planned-matrix order. */
  function LeftJoin(b: seq<PlannedRow>, cs: seq<Override>): (j: seq<JoinedRow>)
    ensures |j| >= |b|
  {
    if b == [] then [] else JoinRow(b[0], cs) + LeftJoin(b[1..], cs)
  }

  /** The override rate the join attaches to `row`, when its key is complete and present. */
  function Attached(cs: seq<Override>, row: PlannedRow): Option<real> {
    match PlannedKey(row)
    case None => None
    case Some(k) => Lookup(cs, k)
  }

  /** Against a table whose keys are unique, a row matches at most one override. */
  lemma {:induction false} MatchRatesUnique(cs: seq<Override>, key: Option<Key>)
    requires Unique(cs)
    ensures MatchRates(cs, key) == match key
      case None => []
      case Some(k) => if HasKey(cs, k) then [Lookup(cs, k).value] else []
  {
    if cs != [] {
      MatchRatesUnique(cs[1..], key);
      if key.Some? {
        HasKeyTail(cs, key.value);
      }
    }
  }

  /**
   * Against a table whose keys are unique, the left join keeps every planned
   * row exactly once, in order, with the rate of its unique match attached.
   */
  lemma {:induction false} LeftJoinUnique(b: seq<PlannedRow>, cs: seq<Override>)
    requires Unique(cs)
    ensures |LeftJoin(b, cs)| == |b|
    ensures forall i :: 0 <= i < |b| ==> LeftJoin(b, cs)[i] == JoinedRow(b[i], Attached(cs, b[i]))
  {
    if b != [] {
      var rest := LeftJoin(b[1..], cs);
      LeftJoinUnique(b[1..], cs);
      JoinRowUnique(b[0], cs);
      assert LeftJoin(b, cs) == [JoinedRow(b[0], Attached(cs, b[0]))] + rest;
      forall i | 0 < i < |b| ensures LeftJoin(b, cs)[i] == JoinedRow(b[i], Attached(cs, b[i])) {
        assert b[1..][i - 1] == b[i];
      }
    }
  }

  /** Against a table whose keys are unique, a planned row joins to exactly one row. */
  lemma JoinRowUnique(row: PlannedRow, cs: seq<Override>)
    requires Unique(cs)
    ensures JoinRow(row, cs) == [JoinedRow(row, Attached(cs, row))]
  {
    MatchRatesUnique(cs, PlannedKey(row));
  }

  /** Series.combine_first: `primary` unless it is null, else `fallback`. */
  function CombineFirst(primary: Option<real>, fallback: Option<real>): (r: Option<real>)
    ensures primary.Some? ==> r == primary
    ensures primary.None? ==> r == fallback
  {
    if primary.Some? then primary else fallback
  }

  /** billRate overwritten by the attached rate wherever one is attached. */
  function Coalesce(j: seq<JoinedRow>): (r: seq<JoinedRow>)
    ensures |r| == |j|
    ensures forall i :: 0 <= i < |j| ==> r[i].newBillRate == j[i].newBillRate
    ensures forall i :: 0 <= i < |j| ==> r[i].row == j[i].row.(billRate := r[i].row.billRate)
    ensures forall i :: 0 <= i < |j| && j[i].newBillRate.Some? ==> r[i].row.billRate == j[i].newBillRate
    ensures forall i :: 0 <= i < |j| && j[i].newBillRate.None? ==> r[i] == j[i]
  {
    seq(|j|, i requires 0 <= i < |j| =>
      JoinedRow(j[i].row.(billRate := CombineFirst(j[i].newBillRate, j[i].row.billRate)), j[i].newBillRate))
  }

  /** The joined table without its attached-rate column. */
  function DropHelper(j: seq<JoinedRow>): (r: seq<PlannedRow>)
    ensures |r| == |j|
    ensures forall i :: 0 <= i < |j| ==> r[i] == j[i].row
  {
    seq(|j|, i requires 0 <= i < |j| => j[i].row)
  }

  /** The planned matrix with its bill rates reconciled against the overrides. */
  function Reconcile(b: seq<PlannedRow>, os: seq<Override>): (r: seq<PlannedRow>)
    ensures |r| == |b|
  {
    LeftJoinUnique(b, Collapse(os));
    DropHelper(Coalesce(LeftJoin(b, Collapse(os))))
  }

  /**
   * The bill rate a planned row should end with, stated without grouping or
   * joining: the largest override rate for its key if it has a complete key
   * that some override carries, else its own.
   */
  function ExpectedRate(row: PlannedRow, os: seq<Override>): Option<real> {
    match PlannedKey(row)
    case Some(k) => if HasKey(os, k) then Some(MaxRate(os, k)) else row.billRate
    case None => row.billRate
  }

  /**
   * Reconciliation keeps every planned row exactly once and in order, and
   * changes nothing in it but billRate, which becomes its expected rate.
   */
  lemma ReconcileRows(b: seq<PlannedRow>, os: seq<Override>)
    ensures |Reconcile(b, os)| == |b|
    ensures forall i :: 0 <= i < |b| ==> Reconcile(b, os)[i] == b[i].(billRate := ExpectedRate(b[i], os))
  {
    var cs := Collapse(os);
    LeftJoinUnique(b, cs);
  }

  /** Unique keys, stated pairwise: no two entries share a key. */
  lemma {:induction false} UniquePairwise(cs: seq<Override>)
    requires Unique(cs)
    ensures forall i, j :: 0 <= i < j < |cs| ==> cs[i].key != cs[j].key
  {
    if cs != [] {
      var tail := cs[1..];
      UniquePairwise(tail);
      forall j | 0 < j < |cs| ensures cs[0].key != cs[j].key {
        assert tail[j - 1] == cs[j];
      }
      forall i, j | 0 < i < j < |cs| ensures cs[i].key != cs[j].key {
        assert tail[i - 1] == cs[i] && tail[j - 1] == cs[j];
      }
    }
  }

  /** In a table with unique keys, the lookup of an entry's key finds that entry. */
  lemma {:induction false} LookupUnique(cs: seq<Override>, i: nat)
    requires Unique(cs) && i < |cs|
    ensures Lookup(cs, cs[i].key) == Some(cs[i].rate)
  {
    if i > 0 {
      var tail := cs[1..];
      assert tail[i - 1] == cs[i];
      assert cs[0].key != cs[i].key;
      LookupUnique(tail, i - 1);
    }
  }

  /**
   * After collapsing, each key occurs at most once, only keys of the
   * overrides occur, and each entry carries the maximum rate for its key.
   */
  lemma CollapseEntries(os: seq<Override>)
    ensures forall i, j :: 0 <= i < j < |Collapse(os)| ==> Collapse(os)[i].key != Collapse(os)[j].key
    ensures forall i :: 0 <= i < |Collapse(os)| ==>
      HasKey(os, Collapse(os)[i].key) && Collapse(os)[i].rate == MaxRate(os, Collapse(os)[i].key)
    ensures forall k :: HasKey(Collapse(os), k) <==> HasKey(os, k)
  {
    var cs := Collapse(os);
    UniquePairwise(cs);
    forall i | 0 <= i < |cs| ensures HasKey(os, cs[i].key) && cs[i].rate == MaxRate(os, cs[i].key) {
      LookupUnique(cs, i);
    }
    forall k ensures HasKey(cs, k) <==> HasKey(os, k) {
      assert Lookup(cs, k).None? <==> !HasKey(cs, k);
    }
  }

  /** With no overrides the planned matrix comes back row for row. */
  lemma ReconcileNoOverrides(b: seq<PlannedRow>)
    ensures Reconcile(b, []) == b
  {
    ReconcileRows(b, []);
  }

  /** Every column but billRate keeps its planned value. */
  lemma ReconcileOnlyBillRate(b: seq<PlannedRow>, os: seq<Override>)
    ensures |Reconcile(b, os)| == |b|
    ensures forall i :: 0 <= i < |b| ==> Reconcile(b, os)[i].(billRate := b[i].billRate) == b[i]
  {
    ReconcileRows(b, os);
  }

  /**
   * A planned row whose key some override carries ends with the largest such
   * rate, zero included; any other row is unchanged.
   */
  lemma ReconcileOverrideWins(b: seq<PlannedRow>, os: seq<Override>, i: nat)
    requires i < |b|
    ensures |Reconcile(b, os)| == |b|
    ensures PlannedKey(b[i]).Some? && HasKey(os, PlannedKey(b[i]).value) ==>
      Reconcile(b, os)[i].billRate == Some(MaxRate(os, PlannedKey(b[i]).value))
    ensures PlannedKey(b[i]).None? || !HasKey(os, PlannedKey(b[i]).value) ==> Reconcile(b, os)[i] == b[i]
  {
    ReconcileRows(b, os);
  }

  /** Reconciling an already reconciled matrix against the same overrides changes nothing. */
  lemma ReconcileIdempotent(b: seq<PlannedRow>, os: seq<Override>)
    ensures Reconcile(Reconcile(b, os), os) == Reconcile(b, os)
  {
    var once := Reconcile(b, os);
    ReconcileRows(b, os);
    ReconcileRows(once, os);
    forall i | 0 <= i < |once| ensures Reconcile(once, os)[i] == once[i] {
      assert PlannedKey(once[i]) == PlannedKey(b[i]);
    }
  }

  /** Two overrides for one key with rates 100 and 150 collapse to one at 150. */
  lemma CollapseKeepsMaximum(k: Key)
    ensures Collapse([Override(k, 100.0), Override(k, 150.0)]) == [Override(k, 150.0)]
  {
    var first := [Override(k, 100.0)];
    var os := first + [Override(k, 150.0)];
    assert os[..1] == first;
    assert first[..0] == [];
    assert Collapse(first) == Insert([], Override(k, 100.0)) == first;
    assert Insert(first, Override(k, 150.0)) == [Override(k, 150.0)] + first[1..];
  }
}
