/**
 * `_parse_computed_values_xml`: the named points of ComputedValues.xml. Every
 * Component element, at any depth, collects the points of the Metric
 * elements beneath it (nested Components included); a Metric names a point
 * when its MetricID contains ':' and it carries an ArrayValue. Components
 * that end up with at least one point get a `points` field.
 */
module ComputedValuesPass {
  import opened Wrappers
  import opened Xml
  import opened Tables
  import opened Numbers
  import opened Records
  import opened Text

  /** A point's name and its coordinates. */
  type Point = (string, seq<Num>)

  /** The points of one component, by name. */
  type PointMap = map<string, seq<Num>>

  /** The Metric names a point: its MetricID contains ':' and it has an ArrayValue. */
  predicate NamesPoint(m: Element)
  {
    Get(m, "MetricID").Some? && ':' in Get(m, "MetricID").value && Get(m, "ArrayValue").Some?
  }

  /** The point's name: the text after the last ':' of the MetricID. */
  function PointName(m: Element): string
    requires Get(m, "MetricID").Some?
  {
    LastPiece(Get(m, "MetricID").value, ':')
  }

  /** The ';'-separated items of the ArrayValue. */
  function PointItems(m: Element): seq<string>
    requires Get(m, "ArrayValue").Some?
  {
    SplitOn(Get(m, "ArrayValue").value, ';')
  }

  /**
   * One iteration of the inner loop: the point a Metric names, None when it
   * names none, or the exception it raises (a Metric without MetricID fails
   * the `':' in` test; an item that is not a number fails `float`).
   */
  function PointOf(m: Element): (r: Outcome<Option<Point>>)
    ensures Get(m, "MetricID").None? ==> r == Err(MissingMetricId)
    ensures r == Ok(None) <==> Get(m, "MetricID").Some? && !NamesPoint(m)
    ensures r.Ok? && r.value.Some? ==> NamesPoint(m) && r.value.value.0 == PointName(m)
  {
    var id := Get(m, "MetricID");
    if id.None? then Err(MissingMetricId)
    else if ':' in id.value && Get(m, "ArrayValue").Some? then
      var coords :- ParseList(PointItems(m));
      Ok(Some((PointName(m), coords)))
    else Ok(None)
  }

  /**
   * The rule for one Metric: a point is produced exactly when the Metric
   * names one and every ArrayValue item is a number; its name is the
   * separator-free tail of the MetricID after its last ':', and its
   * coordinates are the items in order, which joined with ';' give back the
   * ArrayValue. A Metric with a MetricID fails only on a bad number.
   */
  lemma PointRule(m: Element)
    ensures PointOf(m).Ok? && PointOf(m).value.Some? <==>
              NamesPoint(m) && forall i | 0 <= i < |PointItems(m)| :: IsFloatLiteral(PointItems(m)[i])
    ensures PointOf(m).Ok? && PointOf(m).value.Some? ==>
              var id := Get(m, "MetricID").value;
              var p := PointOf(m).value.value;
              |p.0| < |id| && p.0 == id[|id| - |p.0|..] && id[|id| - |p.0| - 1] == ':' && ':' !in p.0
              && |p.1| == |PointItems(m)|
              && (forall i | 0 <= i < |p.1| :: p.1[i] == Float(PointItems(m)[i]))
              && JoinWith(PointItems(m), ';') == Get(m, "ArrayValue").value
    ensures PointOf(m).Err? && Get(m, "MetricID").Some? ==> PointOf(m).error.NotANumber?
  {
    if NamesPoint(m) {
      LastPieceIsTail(Get(m, "MetricID").value, ':');
      JoinSplit(Get(m, "ArrayValue").value, ';');
    }
  }

  /** The key and the guarded value of the `points[pt_name] = ...` write. */
  function PointKey(p: Option<Point>): string
  {
    if p.Some? then p.value.0 else ""
  }

  function PointVal(p: Option<Point>): Option<seq<Num>>
  {
    if p.Some? then Some(p.value.1) else None
  }

  /** The inner loop over a Component's Metrics: the `points` dict it builds, or the exception. */
  function PointsFrom(ms: seq<Element>): Outcome<PointMap>
  {
    var ps :- Collect(ms, PointOf);
    Ok(OptTableBy(ps, PointKey, PointVal))
  }

  function ComponentPoints(c: Element): Outcome<PointMap>
  {
    PointsFrom(Iter(c, "Metric"))
  }

  /**
   * The inner loop succeeds iff every Metric has a MetricID and every point's
   * items are numbers, and otherwise fails with the exception of the first
   * Metric that does not. When it succeeds, a name is in
   * `points` iff some Metric names a point of that name, and its coordinates
   * are those of the last such Metric.
   */
  lemma {:induction false} PointsFromRule(ms: seq<Element>, name: string)
    ensures PointsFrom(ms).Ok? <==> forall i | 0 <= i < |ms| :: PointOf(ms[i]).Ok?
    ensures PointsFrom(ms).Err? ==>
              exists i | 0 <= i < |ms| :: PointOf(ms[i]) == Err(PointsFrom(ms).error) && forall j | 0 <= j < i :: PointOf(ms[j]).Ok?
    ensures PointsFrom(ms).Ok? ==>
              (name in PointsFrom(ms).value <==> exists i | 0 <= i < |ms| :: NamesPoint(ms[i]) && PointName(ms[i]) == name)
    ensures PointsFrom(ms).Ok? && name in PointsFrom(ms).value ==>
              exists i | 0 <= i < |ms| ::
                NamesPoint(ms[i]) && PointName(ms[i]) == name
                && (forall j | i < j < |ms| :: !(NamesPoint(ms[j]) && PointName(ms[j]) == name))
                && ParseList(PointItems(ms[i])) == Ok(PointsFrom(ms).value[name])
  {
    var c := Collect(ms, PointOf);
    if c.Ok? {
      var ps := c.value;
      OptTableByLast(ps, PointKey, PointVal, name);
      CollectedPoints(ms);
      if name in PointsFrom(ms).value {
        var i :| IsLastSome(ps, PointKey, PointVal, name, i)
                 && Some(OptTableBy(ps, PointKey, PointVal)[name]) == PointVal(ps[i]);
        assert ParseList(PointItems(ms[i])) == Ok(PointsFrom(ms).value[name]);
      }
    }
  }

  /** A Metric yields a point exactly when it names one, under its name and with its parsed items. */
  lemma CollectedPoints(ms: seq<Element>)
    requires Collect(ms, PointOf).Ok?
    ensures var ps := Collect(ms, PointOf).value;
            |ps| == |ms|
            && forall i | 0 <= i < |ms| ::
                 (PointVal(ps[i]).Some? <==> NamesPoint(ms[i]))
                 && (PointVal(ps[i]).Some? ==>
                       PointKey(ps[i]) == PointName(ms[i]) && ParseList(PointItems(ms[i])) == Ok(PointVal(ps[i]).value))
  {
  }

  /** A component gets points iff the inner loop succeeds and one of its Metrics names a point. */
  lemma HasPoints(c: Element)
    ensures ComponentPoints(c).Ok? ==>
              (|ComponentPoints(c).value| > 0 <==> exists m <- Iter(c, "Metric") :: NamesPoint(m))
  {
    var ms := Iter(c, "Metric");
    if ComponentPoints(c).Ok? {
      var pts := ComponentPoints(c).value;
      if |pts| > 0 {
        var name :| name in pts;
        PointsFromRule(ms, name);
      }
      if m :| m in ms && NamesPoint(m) {
        var i :| 0 <= i < |ms| && ms[i] == m;
        PointsFromRule(ms, PointName(m));
        assert PointName(m) in pts;
      }
    }
  }

  /** Iterations of the outer loop: the component's ID and its `points` dict. */
  type Entry = (ComponentId, PointMap)

  function EntryOf(c: Element): Outcome<Entry>
  {
    var pts :- ComponentPoints(c);
    Ok((Get(c, "ComponentInstanceID"), pts))
  }

  function EntryId(e: Entry): ComponentId { e.0 }

  /** `if len(points.keys()) > 0: comp_to_points[comp] = points`. */
  function NonEmpty(e: Entry): Option<PointMap>
  {
    if |e.1| > 0 then Some(e.1) else None
  }

  /** The outer loop: the `comp_to_points` dict, or the first exception. */
  function PointsTableOf(cs: seq<Element>): Outcome<map<ComponentId, PointMap>>
  {
    var es :- Collect(cs, EntryOf);
    Ok(OptTableBy(es, EntryId, NonEmpty))
  }

  function ValueComponents(root: Element): seq<Element>
  {
    Iter(root, "Component")
  }

  /** The `points` value as stored: a dict from point name to its coordinate vector. */
  function PointsValue(pts: PointMap): (v: Value)
    ensures v.Dict? && v.entries.Keys == pts.Keys
    ensures forall n <- pts.Keys :: v.entries[n] == Vector(pts[n])
  {
    Dict(map n | n in pts :: Vector(pts[n]))
  }

  /** The partial records this pass merges into `components`: only the `points` field. */
  function ComputedPartials(root: Element): (r: Outcome<Components>)
    ensures r.Ok? ==> forall comp <- r.value.Keys :: r.value[comp].Keys == {Points}
    ensures r.Ok? <==> PointsTableOf(ValueComponents(root)).Ok?
  {
    var t :- PointsTableOf(ValueComponents(root));
    Ok(map comp | comp in t :: map[Points := PointsValue(t[comp])])
  }

  /** The Component has a point, under the given ComponentInstanceID. */
  predicate Contributes(c: Element, comp: ComponentId)
  {
    Yields(EntryOf, EntryId, NonEmpty, c, comp)
  }

  lemma ContributesMeans(c: Element, comp: ComponentId)
    ensures Contributes(c, comp) <==>
              ComponentPoints(c).Ok? && Get(c, "ComponentInstanceID") == comp && |ComponentPoints(c).value| > 0
  {
  }

  /** The outer loop succeeds iff every Component's inner loop does. */
  lemma PointsTableOk(cs: seq<Element>)
    ensures PointsTableOf(cs).Ok? <==> forall i | 0 <= i < |cs| :: ComponentPoints(cs[i]).Ok?
  {
    if Collect(cs, EntryOf).Err? {
      var i :| 0 <= i < |cs| && EntryOf(cs[i]).Err?;
      assert ComponentPoints(cs[i]).Err?;
    }
  }

  /**
   * After a successful outer loop, an ID is in `comp_to_points` iff some
   * Component with that ID has a point, and its entry is the points of the
   * last such Component: a later Component with the same ID but no points
   * does not clear it.
   */
  lemma PointsTableRule(cs: seq<Element>, comp: ComponentId)
    requires PointsTableOf(cs).Ok?
    ensures comp in PointsTableOf(cs).value <==> exists i | 0 <= i < |cs| :: Contributes(cs[i], comp)
    ensures comp in PointsTableOf(cs).value ==>
              exists i | 0 <= i < |cs| ::
                Contributes(cs[i], comp)
                && (forall j | i < j < |cs| :: !Contributes(cs[j], comp))
                && PointsTableOf(cs).value[comp] == ComponentPoints(cs[i]).value
  {
    PointsTableKeys(cs, comp);
    if comp in PointsTableOf(cs).value {
      var i := PointsTableLast(cs, comp);
    }
  }

  /** The key half of `PointsTableRule`. */
  lemma PointsTableKeys(cs: seq<Element>, comp: ComponentId)
    requires PointsTableOf(cs).Ok?
    ensures comp in PointsTableOf(cs).value <==> exists i | 0 <= i < |cs| :: Contributes(cs[i], comp)
  {
    var t := OptTableBy(Collect(cs, EntryOf).value, EntryId, NonEmpty);
    assert PointsTableOf(cs).value == t;
    CollectOptTable(cs, EntryOf, EntryId, NonEmpty, comp);
  }

  /** The value half of `PointsTableRule`: the index of the Component whose points are stored. */
  lemma PointsTableLast(cs: seq<Element>, comp: ComponentId) returns (i: nat)
    requires PointsTableOf(cs).Ok? && comp in PointsTableOf(cs).value
    ensures i < |cs| && Contributes(cs[i], comp)
    ensures forall j | i < j < |cs| :: !Contributes(cs[j], comp)
    ensures PointsTableOf(cs).value[comp] == ComponentPoints(cs[i]).value
  {
    var t := OptTableBy(Collect(cs, EntryOf).value, EntryId, NonEmpty);
    assert PointsTableOf(cs).value == t;
    CollectOptTable(cs, EntryOf, EntryId, NonEmpty, comp);
    i :| 0 <= i < |cs| && Yields(EntryOf, EntryId, NonEmpty, cs[i], comp)
         && (forall j | i < j < |cs| :: !Yields(EntryOf, EntryId, NonEmpty, cs[j], comp))
         && Some(t[comp]) == NonEmpty(EntryOf(cs[i]).value);
    EntryPoints(cs[i]);
  }

  /** A Component's loop entry carries its points. */
  lemma EntryPoints(c: Element)
    requires EntryOf(c).Ok?
    ensures ComponentPoints(c).Ok? && EntryOf(c).value.1 == ComponentPoints(c).value
  {
  }

  /**
   * The whole pass: it succeeds iff every Component's inner loop does; a
   * component then gets a `points` field iff some Component with its ID has
   * a point, and the field holds the points of the last such Component.
   */
  lemma ComputedPointsRule(root: Element, comp: ComponentId)
    ensures ComputedPartials(root).Ok? <==>
              forall i | 0 <= i < |ValueComponents(root)| :: ComponentPoints(ValueComponents(root)[i]).Ok?
    ensures ComputedPartials(root).Ok? ==>
              (comp in ComputedPartials(root).value <==>
                 exists i | 0 <= i < |ValueComponents(root)| :: Contributes(ValueComponents(root)[i], comp))
    ensures ComputedPartials(root).Ok? && comp in ComputedPartials(root).value ==>
              exists i | 0 <= i < |ValueComponents(root)| ::
                Contributes(ValueComponents(root)[i], comp)
                && (forall j | i < j < |ValueComponents(root)| :: !Contributes(ValueComponents(root)[j], comp))
                && ComputedPartials(root).value[comp]
                   == map[Points := PointsValue(ComponentPoints(ValueComponents(root)[i]).value)]
  {
    var cs := ValueComponents(root);
    PointsTableOk(cs);
    if ComputedPartials(root).Ok? {
      var t := PointsTableOf(cs).value;
      assert comp in ComputedPartials(root).value <==> comp in t;
      PointsTableKeys(cs, comp);
      if comp in t {
        assert ComputedPartials(root).value[comp] == map[Points := PointsValue(t[comp])];
        var i := PointsTableLast(cs, comp);
      }
    }
  }

  /**
   * `iter` descends into nested Components: a point a nested Component's
   * Metric names is also a point of every enclosing Component.
   */
  lemma NestedPointsShared(c: Element, i: nat, m: Element)
    requires i < |c.children| && m in Iter(c.children[i], "Metric") && NamesPoint(m)
    requires ComponentPoints(c).Ok?
    ensures PointName(m) in ComponentPoints(c).value
  {
    IterIncludesNested(c, "Metric", i, m);
    var ms := Iter(c, "Metric");
    var k :| 0 <= k < |ms| && ms[k] == m;
    PointsFromRule(ms, PointName(m));
  }

  // ---------------------------------------------------------------- the mining loops

  /** The inner loop, Metric by Metric. */
  method MinePoints(ms: seq<Element>) returns (r: Outcome<PointMap>)
    ensures r == PointsFrom(ms)
  {
    var points: PointMap := map[];
    for i := 0 to |ms|
      invariant Collect(ms[..i], PointOf).Ok?
      invariant points == OptTableBy(Collect(ms[..i], PointOf).value, PointKey, PointVal)
    {
      var metric := ms[i];
      var id := Get(metric, "MetricID");
      if id.None? {
        CollectFirstErr(ms, PointOf, i);
        return Err(MissingMetricId);
      }
      if ':' in id.value && Get(metric, "ArrayValue").Some? {
        var coords := ParseList(SplitOn(Get(metric, "ArrayValue").value, ';'));
        if coords.Err? {
          CollectFirstErr(ms, PointOf, i);
          return Err(coords.error);
        }
        points := points[LastPiece(id.value, ':') := coords.value];
      }
      CollectStep(ms, PointOf, i);
      OptTableBySnoc(Collect(ms[..i], PointOf).value, PointOf(ms[i]).value, PointKey, PointVal);
    }
    assert ms[..|ms|] == ms;
    return Ok(points);
  }

  /** The outer loop, Component by Component, keeping only non-empty point dicts. */
  method MineComputedValues(cs: seq<Element>) returns (r: Outcome<map<ComponentId, PointMap>>)
    ensures r == PointsTableOf(cs)
  {
    var compToPoints: map<ComponentId, PointMap> := map[];
    for i := 0 to |cs|
      invariant Collect(cs[..i], EntryOf).Ok?
      invariant compToPoints == OptTableBy(Collect(cs[..i], EntryOf).value, EntryId, NonEmpty)
    {
      var comp := Get(cs[i], "ComponentInstanceID");
      var points := MinePoints(Iter(cs[i], "Metric"));
      if points.Err? {
        CollectFirstErr(cs, EntryOf, i);
        return Err(points.error);
      }
      if |points.value| > 0 {
        compToPoints := compToPoints[comp := points.value];
      }
      CollectStep(cs, EntryOf, i);
      OptTableBySnoc(Collect(cs[..i], EntryOf).value, EntryOf(cs[i]).value, EntryId, NonEmpty);
    }
    assert cs[..|cs|] == cs;
    return Ok(compToPoints);
  }
}
