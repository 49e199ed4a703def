/**
 * The filter contract shared by the listing and the statistics: optional filters,
 * each turned into one WHERE condition, all joined by AND
 * (server/src/handlers/get_swimming_practices.ts, server/src/handlers/get_practice_statistics.ts).
 */
module Filters {
  import opened Schema

  /** One WHERE condition on the practice table. */
  datatype Condition =
    | StrokeIs(stroke: Stroke)
    | DateOnOrAfter(from: Date)
    | DateOnOrBefore(to: Date)

  predicate Holds(c: Condition, p: Practice) {
    match c
    case StrokeIs(s) => p.mainStroke == s
    case DateOnOrAfter(d) => p.date >= d
    case DateOnOrBefore(d) => p.date <= d
  }

  /** The conjunction of the conditions; no condition at all keeps every row. */
  predicate HoldsAll(conds: seq<Condition>, p: Practice) {
    forall c :: c in conds ==> Holds(c, p)
  }

  /** The filters read declaratively: each filter that is given must hold, and bounds are inclusive. */
  predicate Matches(stroke: Option<Stroke>, from: Option<Date>, to: Option<Date>, p: Practice) {
    && (stroke.Some? ==> p.mainStroke == stroke.value)
    && (from.Some? ==> p.date >= from.value)
    && (to.Some? ==> p.date <= to.value)
  }

  /** Pushing a condition onto the list adds it to the conjunction. */
  lemma HoldsAllPush(conds: seq<Condition>, c: Condition)
    ensures forall p :: HoldsAll(conds + [c], p) <==> HoldsAll(conds, p) && Holds(c, p)
  {
    forall p ensures HoldsAll(conds + [c], p) <==> HoldsAll(conds, p) && Holds(c, p) {
      assert forall d :: d in conds + [c] <==> d in conds || d == c;
    }
  }

  /** Builds the condition list step by step, one push per filter that is given. */
  method BuildConditions(stroke: Option<Stroke>, from: Option<Date>, to: Option<Date>)
    returns (conds: seq<Condition>)
    ensures |conds| <= 3
    ensures forall p :: HoldsAll(conds, p) <==> Matches(stroke, from, to, p)
  {
    conds := [];
    if stroke.Some? {
      HoldsAllPush(conds, StrokeIs(stroke.value));
      conds := conds + [StrokeIs(stroke.value)];
    }
    assert forall p :: HoldsAll(conds, p) <==> Matches(stroke, None, None, p);
    if from.Some? {
      HoldsAllPush(conds, DateOnOrAfter(from.value));
      conds := conds + [DateOnOrAfter(from.value)];
    }
    assert forall p :: HoldsAll(conds, p) <==> Matches(stroke, from, None, p);
    if to.Some? {
      HoldsAllPush(conds, DateOnOrBefore(to.value));
      conds := conds + [DateOnOrBefore(to.value)];
    }
  }

  /** The rows a SELECT with these conditions returns, in the order it meets them. */
  function Where(rows: seq<Practice>, conds: seq<Condition>): (r: seq<Practice>)
    ensures |r| <= |rows|
    ensures forall p :: p in r <==> p in rows && HoldsAll(conds, p)
  {
    if rows == [] then []
    else (if HoldsAll(conds, rows[0]) then [rows[0]] else []) + Where(rows[1..], conds)
  }

  /** The rows that match the filters, in their order: the specification of a filtered SELECT. */
  function Selected(rows: seq<Practice>, stroke: Option<Stroke>, from: Option<Date>, to: Option<Date>)
    : (r: seq<Practice>)
    ensures |r| <= |rows|
    ensures forall p :: p in r <==> p in rows && Matches(stroke, from, to, p)
  {
    if rows == [] then []
    else (if Matches(stroke, from, to, rows[0]) then [rows[0]] else []) + Selected(rows[1..], stroke, from, to)
  }

  /** A condition list equivalent to the filters selects exactly the matching rows, in the same order. */
  lemma {:induction false} WhereIsSelected(
    rows: seq<Practice>, conds: seq<Condition>, stroke: Option<Stroke>, from: Option<Date>, to: Option<Date>)
    requires forall p :: HoldsAll(conds, p) <==> Matches(stroke, from, to, p)
    ensures Where(rows, conds) == Selected(rows, stroke, from, to)
  {
    if rows != [] {
      WhereIsSelected(rows[1..], conds, stroke, from, to);
    }
  }

  /**
   * Practices on the 10th, 15th, 20th and 25th, filtered from the 12th to the 22nd:
   * only the 15th and the 20th remain, in their order.
   */
  lemma DateRangeScenario(p10: Practice, p15: Practice, p20: Practice, p25: Practice)
    requires p10.date == 10 && p15.date == 15 && p20.date == 20 && p25.date == 25
    ensures Selected([p10, p15, p20, p25], None, Some(12), Some(22)) == [p15, p20]
  {
    var rows := [p10, p15, p20, p25];
    assert rows[1..] == [p15, p20, p25] && rows[1..][1..] == [p20, p25];
    assert rows[1..][1..][1..] == [p25] && rows[1..][1..][1..][1..] == [];
    var from, to := Some(12), Some(22);
    assert Selected([p25], None, from, to) == [];
    assert Selected([p20, p25], None, from, to) == [p20];
    assert Selected([p15, p20, p25], None, from, to) == [p15, p20];
  }
}
