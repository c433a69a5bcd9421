/**
 * Normalisation of the labor-category overrides: rows with a missing key
 * cell or a missing rate are dropped, then every remaining rate is cleaned
 * and parsed; one rate that does not parse fails the whole table.
 */
module Normalizer {
  import opened Wrappers
  import opened Rows
  import Rates

  /** No key cell and not the rate is missing. */
  predicate Complete(r: RawOverride) {
    r.person.Some? && r.project.Some? && r.laborCategory.Some? &&
    r.beginDate.Some? && r.endDate.Some? && r.newBillRate.Some?
  }

  /** The key of a complete override row. */
  function OverrideKey(r: RawOverride): Key
    requires Complete(r)
  {
    Key(r.person.value, r.project.value, r.laborCategory.value, r.beginDate.value, r.endDate.value)
  }

  /** The rows with every key cell and the rate present, in their order. */
  function DropIncomplete(raws: seq<RawOverride>): (kept: seq<RawOverride>)
    ensures |kept| <= |raws|
    ensures forall i :: 0 <= i < |kept| ==> Complete(kept[i])
  {
    if raws == [] then []
    else (if Complete(raws[0]) then [raws[0]] else []) + DropIncomplete(raws[1..])
  }

  /** The kept rows are exactly the complete ones. */
  lemma {:induction false} DropIncompleteMembers(raws: seq<RawOverride>, r: RawOverride)
    ensures r in DropIncomplete(raws) <==> r in raws && Complete(r)
  {
    if raws != [] {
      DropIncompleteMembers(raws[1..], r);
      assert raws == [raws[0]] + raws[1..];
    }
  }

  /** Dropping incomplete rows distributes over concatenation. */
  lemma {:induction false} DropIncompleteConcat(a: seq<RawOverride>, b: seq<RawOverride>)
    ensures DropIncomplete(a + b) == DropIncomplete(a) + DropIncomplete(b)
  {
    if a == [] {
      assert a + b == b;
    } else {
      assert (a + b)[0] == a[0];
      assert (a + b)[1..] == a[1..] + b;
      DropIncompleteConcat(a[1..], b);
    }
  }

  /** An incomplete row contributes nothing: removing it leaves the kept rows as they were. */
  lemma IncompleteRowDropped(raws: seq<RawOverride>, i: nat)
    requires i < |raws| && !Complete(raws[i])
    ensures DropIncomplete(raws) == DropIncomplete(raws[..i] + raws[i + 1..])
  {
    var pre, post := raws[..i], raws[i + 1..];
    assert raws == (pre + [raws[i]]) + post;
    assert DropIncomplete(pre + [raws[i]]) == DropIncomplete(pre) by {
      DropIncompleteConcat(pre, [raws[i]]);
      DropIncompleteSkip(raws[i]);
    }
    DropIncompleteConcat(pre + [raws[i]], post);
    DropIncompleteConcat(pre, post);
  }

  lemma DropIncompleteSkip(r: RawOverride)
    requires !Complete(r)
    ensures DropIncomplete([r]) == []
  {
    assert [r][1..] == [];
  }

  /** The rate text of a complete row. */
  function RateCell(r: RawOverride): string
    requires Complete(r)
  {
    r.newBillRate.value
  }

  /** The rate of a complete row parses. */
  predicate RateParses(r: RawOverride)
    requires Complete(r)
  {
    Rates.ParseRate(r.newBillRate.value).Some?
  }

  /**
   * Every rate read with `parse`, or the error for the first rate that does
   * not read; the error carries the cleaned text, as the traceback would.
   * The parser is a parameter so that these proofs need nothing of how
   * rates are read; the normalisation below passes Rates.ParseRate.
   */
  function ParseAll(rows: seq<RawOverride>, parse: string -> Option<real>): (res: Result<seq<Override>, Error>)
    requires forall i :: 0 <= i < |rows| ==> Complete(rows[i])
    ensures res.Ok? <==> forall i :: 0 <= i < |rows| ==> parse(RateCell(rows[i])).Some?
    ensures res.Ok? ==> |res.value| == |rows| && forall i :: 0 <= i < |rows| ==>
      res.value[i] == Override(OverrideKey(rows[i]), parse(RateCell(rows[i])).value)
    ensures res.Err? ==> res.error.MalformedRate?
  {
    if rows == [] then Ok([])
    else
      assert Complete(rows[0]);
      var text := RateCell(rows[0]);
      var tail := rows[1..];
      assert forall i :: 0 <= i < |tail| ==> tail[i] == rows[i + 1];
      match parse(text)
      case None => Err(MalformedRate(Rates.CleanRate(text)))
      case Some(v) =>
        var rest := ParseAll(tail, parse);
        if rest.Err? then rest
        else
          var r := [Override(OverrideKey(rows[0]), v)] + rest.value;
          assert forall i :: 0 < i < |rows| ==> r[i] == rest.value[i - 1];
          Ok(r)
  }

  /** A failed parse reports the cleaned text of a rate that does not read. */
  lemma {:induction false} ParseAllError(rows: seq<RawOverride>, parse: string -> Option<real>)
    requires forall i :: 0 <= i < |rows| ==> Complete(rows[i])
    requires ParseAll(rows, parse).Err?
    ensures exists i :: (0 <= i < |rows| && parse(RateCell(rows[i])).None? &&
      ParseAll(rows, parse).error == MalformedRate(Rates.CleanRate(RateCell(rows[i]))))
  {
    assert Complete(rows[0]);
    var tail := rows[1..];
    assert forall i :: 0 <= i < |tail| ==> tail[i] == rows[i + 1];
    if parse(RateCell(rows[0])).Some? {
      ParseAllError(tail, parse);
      var j :| 0 <= j < |tail| && parse(RateCell(tail[j])).None? &&
        ParseAll(tail, parse).error == MalformedRate(Rates.CleanRate(RateCell(tail[j])));
      assert rows[j + 1] == tail[j];
    }
  }

  /** The normalised override table: incomplete rows dropped, rates parsed. */
  function NormalizeOverrides(raws: seq<RawOverride>): (res: Result<seq<Override>, Error>)
    ensures res.Err? ==> res.error.MalformedRate?
    ensures res.Ok? ==> |res.value| <= |raws|
  {
    ParseAll(DropIncomplete(raws), Rates.ParseRate)
  }

  /** A single complete row whose rate reads as `v` normalises to its key at `v`. */
  lemma NormalizeSingle(r: RawOverride, v: real)
    requires Complete(r) && Rates.ParseRate(RateCell(r)) == Some(v)
    ensures NormalizeOverrides([r]) == Ok([Override(OverrideKey(r), v)])
  {
    assert DropIncomplete([r]) == [r] by {
      assert [r][1..] == [];
    }
    var parsed := ParseAll([r], Rates.ParseRate);
    assert parsed.Ok? && |parsed.value| == 1 && parsed.value[0] == Override(OverrideKey(r), v);
    assert parsed.value == [Override(OverrideKey(r), v)];
    assert NormalizeOverrides([r]) == parsed;
  }

  /**
   * Normalisation fails exactly when some complete row carries a rate that
   * does not parse; an incomplete row's rate is never read.
   */
  lemma NormalizeFailsIff(raws: seq<RawOverride>)
    ensures NormalizeOverrides(raws).Err? <==>
      exists i :: 0 <= i < |raws| && Complete(raws[i]) && !RateParses(raws[i])
    ensures NormalizeOverrides(raws).Err? ==> NormalizeOverrides(raws).error.MalformedRate?
  {
    var kept := DropIncomplete(raws);
    if NormalizeOverrides(raws).Err? {
      var j :| 0 <= j < |kept| && !RateParses(kept[j]);
      DropIncompleteMembers(raws, kept[j]);
      var i :| 0 <= i < |raws| && raws[i] == kept[j];
    }
    if exists i :: 0 <= i < |raws| && Complete(raws[i]) && !RateParses(raws[i]) {
      var i :| 0 <= i < |raws| && Complete(raws[i]) && !RateParses(raws[i]);
      DropIncompleteMembers(raws, raws[i]);
    }
  }

  /** Every normalised override comes from a complete row carrying its key and parsed rate. */
  lemma NormalizedFromComplete(raws: seq<RawOverride>, j: nat)
    requires NormalizeOverrides(raws).Ok? && j < |NormalizeOverrides(raws).value|
    ensures exists i :: (0 <= i < |raws| && Complete(raws[i]) && RateParses(raws[i]) &&
      NormalizeOverrides(raws).value[j] ==
        Override(OverrideKey(raws[i]), Rates.ParseRate(raws[i].newBillRate.value).value))
  {
    var kept := DropIncomplete(raws);
    var parsed := ParseAll(kept, Rates.ParseRate).value;
    assert parsed[j] == Override(OverrideKey(kept[j]), Rates.ParseRate(kept[j].newBillRate.value).value);
    DropIncompleteMembers(raws, kept[j]);
    var i :| 0 <= i < |raws| && raws[i] == kept[j];
    assert Complete(raws[i]);
  }
}
