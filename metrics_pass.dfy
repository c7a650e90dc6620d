/**
 * `_parse_cadassembly_metrics_xml`: CADAssembly_metrics.xml maps each
 * component instance to a MetricID, places the children of the top assembly
 * (MetricID '1') with a rotation and a translation, and describes each
 * MetricID's geometry and mass properties in a MetricComponent. The pass
 * joins the three and writes one twelve-field record per component instance.
 */
module MetricsPass {
  import opened Wrappers
  import opened Xml
  import opened Numbers
  import opened Records
  import opened Tables
  import opened Extract

  /** The fields this pass writes into a component's record. */
  const MetricKeys: set<Field> :=
    {MetricId, Rotation, Translation, CoordinateSystem, CadFilenameGenerated, BoundingBox,
     CenterOfGravity, Inertia, SurfaceArea, Volume, Mass, Units}

  function InstanceIdOf(e: Element): ComponentId { Get(e, "ComponentInstanceID") }
  function MetricIdOf(e: Element): MetricId { Get(e, "MetricID") }

  // ---------------------------------------------------------------- placements

  /** `./MetricComponents/MetricComponent[@MetricID='1']/Children/ChildMetric` */
  const ChildMetricPath: seq<Step> :=
    [Child("MetricComponents"), ChildWith("MetricComponent", "MetricID", "1"), Child("Children"), Child("ChildMetric")]

  /** What one ChildMetric contributes to the rotation and translation dicts. */
  datatype Placement = Placement(comp: ComponentId, rotation: Grid, translation: seq<Num>)

  function PlacedId(p: Placement): ComponentId { p.comp }
  function RotationOf(p: Placement): Grid { p.rotation }
  function TranslationOf(p: Placement): seq<Num> { p.translation }

  /**
   * One iteration of the ChildMetric loop: the RotationMatrix and Translation
   * children are dereferenced without a None check, so a ChildMetric lacking
   * either aborts the pass.
   */
  function PlacementOf(child: Element): (r: Outcome<Placement>)
    ensures r.Ok? ==> Places(child, r.value)
  {
    var rm :- Required(Find(child, [Child("RotationMatrix")]), "RotationMatrix");
    var rotation :- MatrixOf(rm, None);
    var tr :- Required(Find(child, [Child("Translation")]), "Translation");
    var translation :- XyzVector(tr);
    Ok(Placement(Get(child, "ComponentInstanceID"), rotation, translation))
  }

  /**
   * `p` is what ChildMetric `child` holds: its ComponentInstanceID, its
   * RotationMatrix read as a 3x3 grid and its Translation read in X, Y, Z order.
   */
  predicate Places(child: Element, p: Placement)
  {
    p.comp == Get(child, "ComponentInstanceID")
    && Find(child, [Child("RotationMatrix")]).Some?
    && Ok(p.rotation) == MatrixOf(Find(child, [Child("RotationMatrix")]).value, None)
    && Find(child, [Child("Translation")]).Some?
    && Ok(p.translation) == XyzVector(Find(child, [Child("Translation")]).value)
  }

  // ---------------------------------------------------------------- metric components

  /** What one MetricComponent contributes to the per-MetricID dicts; absent optional data is None. */
  datatype MetricData = MetricData(
    met: MetricId,
    csys: Option<string>,
    generatedName: Option<string>,
    boundingBox: Value,
    cog: Option<seq<Num>>,
    inertiaAtDefault: Option<Grid>,
    inertiaAtCog: Option<Grid>,
    principle: Option<Value>,
    surfaceArea: Value,
    volume: Value,
    mass: Value,
    units: Value)

  const CgPath: seq<Step> := [Child("CG")]
  const InertiaAtDefaultPath: seq<Step> := [ChildWith("InertiaTensor", "At", "DEFAULT_CSYS")]
  const InertiaAtCogPath: seq<Step> := [ChildWith("InertiaTensor", "At", "CENTER_OF_GRAVITY")]
  const PrinciplePath: seq<Step> := [Child("PrincipleMomentsOfInertia")]

  function FindCg(mc: Element): Option<Element> { Find(mc, CgPath) }
  function FindInertiaAtDefault(mc: Element): Option<Element> { Find(mc, InertiaAtDefaultPath) }
  function FindInertiaAtCog(mc: Element): Option<Element> { Find(mc, InertiaAtCogPath) }
  function FindPrinciple(mc: Element): Option<Element> { Find(mc, PrinciplePath) }

  /** The `bounding_box` dict: the box's own X/Y/Z and its outline points, the points read first. */
  function ReadBoundingBox(bbox: Element): (r: Outcome<Value>)
  {
    var outline :- Collect(FindAll(bbox, [Child("OutlinePoints"), Child("Point")]), XyzVector);
    var corner :- XyzVector(bbox);
    Ok(Dict(map["bounding_box" := Vector(corner), "outline_points" := Matrix(outline)]))
  }

  /** The centre of gravity when a CG element was found. */
  function ReadCog(found: Option<Element>): (r: Outcome<Option<seq<Num>>>)
    ensures r.Ok? ==> (r.value.None? <==> found.None?)
    ensures r.Ok? && found.Some? ==> Ok(r.value.value) == XyzVector(found.value)
  {
    if found.None? then Ok(None)
    else
      var v :- XyzVector(found.value);
      Ok(Some(v))
  }

  /** An inertia tensor when an element was found: always read as a 3x3 grid. */
  function ReadInertia(found: Option<Element>): (r: Outcome<Option<Grid>>)
    ensures r.Ok? ==> (r.value.None? <==> found.None?)
    ensures r.Ok? && found.Some? ==> Ok(r.value.value) == MatrixOf(found.value, None)
  {
    if found.None? then Ok(None)
    else
      var g :- MatrixOf(found.value, None);
      Ok(Some(g))
  }

  /**
   * The principal moments block: its RotationMatrix child is required and
   * read as 3x3, the moments are the block's own rows read as 3x1.
   */
  function PrincipleDict(p: Element): (r: Outcome<Value>)
    ensures r.Ok? ==> r.value.Dict? && Find(p, [Child("RotationMatrix")]).Some?
  {
    var rm :- Required(Find(p, [Child("RotationMatrix")]), "RotationMatrix");
    var rotation :- MatrixOf(rm, None);
    var moments :- MatrixOf(p, Some((3, 1)));
    Ok(Dict(map["rotation_matrix" := Matrix(rotation), "principle_moments" := Matrix(moments)]))
  }

  /** The principal moments block when found. */
  function ReadPrinciple(found: Option<Element>): (r: Outcome<Option<Value>>)
    ensures r.Ok? ==> (r.value.None? <==> found.None?)
    ensures r.Ok? && found.Some? ==> Ok(r.value.value) == PrincipleDict(found.value)
  {
    if found.None? then Ok(None)
    else
      var v :- PrincipleDict(found.value);
      Ok(Some(v))
  }

  /** The `units` dict: the five unit attributes, None where absent. */
  function ReadUnits(u: Element): Value
  {
    Dict(map["distance" := OptText(Get(u, "Distance")), "force" := OptText(Get(u, "Force")),
             "mass" := OptText(Get(u, "Mass")), "temperature" := OptText(Get(u, "Temperature")),
             "time" := OptText(Get(u, "Time"))])
  }

  /**
   * One iteration of the MetricComponent loop, in the order the source reads
   * the element: the BoundingBox and Units children are required, the CG,
   * inertia tensors, principal moments and scalars are optional.
   */
  function MetricDataOf(mc: Element): (r: Outcome<MetricData>)
    ensures Find(mc, [Child("BoundingBox")]).None? ==> r == Err(MissingElement("BoundingBox"))
    ensures r.Ok? ==> Find(mc, [Child("BoundingBox")]).Some? && Find(mc, [Child("Units")]).Some?
    ensures r.Ok? ==> r.value.met == Get(mc, "MetricID") && r.value.csys == Get(mc, "CoordinateSystem")
                      && r.value.generatedName == Get(mc, "Name")
  {
    var bbox :- Required(Find(mc, [Child("BoundingBox")]), "BoundingBox");
    var box :- ReadBoundingBox(bbox);
    var cog :- ReadCog(FindCg(mc));
    var atDefault :- ReadInertia(FindInertiaAtDefault(mc));
    var atCog :- ReadInertia(FindInertiaAtCog(mc));
    var principle :- ReadPrinciple(FindPrinciple(mc));
    var area :- GetScalar(mc, "SurfaceArea");
    var volume :- GetScalar(mc, "Volume");
    var mass :- GetScalar(mc, "Mass");
    var units :- Required(Find(mc, [Child("Units")]), "Units");
    Ok(MetricData(Get(mc, "MetricID"), Get(mc, "CoordinateSystem"), Get(mc, "Name"), box, cog, atDefault,
                  atCog, principle, area, volume, mass, ReadUnits(units)))
  }

  /** `cog` is None exactly when `mc` has no CG, else the CG read in X, Y, Z order. */
  predicate CogRead(mc: Element, cog: Option<seq<Num>>)
  {
    (cog.None? <==> FindCg(mc).None?) && (cog.Some? ==> Ok(cog.value) == XyzVector(FindCg(mc).value))
  }

  /** `g` is None exactly when `find` finds no tensor in `mc`, else that tensor read as a 3x3 grid. */
  predicate InertiaRead(mc: Element, find: Element -> Option<Element>, g: Option<Grid>)
  {
    (g.None? <==> find(mc).None?) && (g.Some? ==> Ok(g.value) == MatrixOf(find(mc).value, None))
  }

  /** `v` is None exactly when `mc` has no principal moments block, else that block read. */
  predicate PrincipleRead(mc: Element, v: Option<Value>)
  {
    (v.None? <==> FindPrinciple(mc).None?) && (v.Some? ==> Ok(v.value) == PrincipleDict(FindPrinciple(mc).value))
  }

  /**
   * `d` is what MetricComponent `mc` holds: its own MetricID, CoordinateSystem
   * and Name; its bounding box and units (both elements present); each
   * optional item present exactly when its element is, each inertia tensor
   * selected by its own At value; and the scalars `get_scalar` finds.
   */
  predicate Describes(mc: Element, d: MetricData)
  {
    d.met == Get(mc, "MetricID") && d.csys == Get(mc, "CoordinateSystem") && d.generatedName == Get(mc, "Name")
    && Find(mc, [Child("BoundingBox")]).Some?
    && Ok(d.boundingBox) == ReadBoundingBox(Find(mc, [Child("BoundingBox")]).value)
    && CogRead(mc, d.cog)
    && InertiaRead(mc, FindInertiaAtDefault, d.inertiaAtDefault)
    && InertiaRead(mc, FindInertiaAtCog, d.inertiaAtCog)
    && PrincipleRead(mc, d.principle)
    && Ok(d.surfaceArea) == GetScalar(mc, "SurfaceArea") && Ok(d.volume) == GetScalar(mc, "Volume")
    && Ok(d.mass) == GetScalar(mc, "Mass")
    && Find(mc, [Child("Units")]).Some? && d.units == ReadUnits(Find(mc, [Child("Units")]).value)
  }

  lemma MetricDataFacts(mc: Element)
    requires MetricDataOf(mc).Ok?
    ensures Describes(mc, MetricDataOf(mc).value)
  {
    var bbox := Find(mc, [Child("BoundingBox")]);
    assert bbox.Some?;
    var box := ReadBoundingBox(bbox.value);
    assert box.Ok?;
    var cog := ReadCog(FindCg(mc));
    var atDefault := ReadInertia(FindInertiaAtDefault(mc));
    var atCog := ReadInertia(FindInertiaAtCog(mc));
    var principle := ReadPrinciple(FindPrinciple(mc));
    assert cog.Ok? && atDefault.Ok? && atCog.Ok? && principle.Ok?;
    var area := GetScalar(mc, "SurfaceArea");
    var volume := GetScalar(mc, "Volume");
    var mass := GetScalar(mc, "Mass");
    assert area.Ok? && volume.Ok? && mass.Ok?;
    var units := Find(mc, [Child("Units")]);
    assert units.Some?;
    assert MetricDataOf(mc).value
           == MetricData(Get(mc, "MetricID"), Get(mc, "CoordinateSystem"), Get(mc, "Name"), box.value, cog.value,
                         atDefault.value, atCog.value, principle.value, area.value, volume.value, mass.value,
                         ReadUnits(units.value));
  }

  function MetricKeyOf(d: MetricData): MetricId { d.met }
  function CsysOf(d: MetricData): Option<string> { d.csys }
  function GeneratedNameOf(d: MetricData): Option<string> { d.generatedName }
  function BoundingBoxOf(d: MetricData): Value { d.boundingBox }
  function CogOf(d: MetricData): Option<seq<Num>> { d.cog }
  function InertiaAtDefaultOf(d: MetricData): Option<Grid> { d.inertiaAtDefault }
  function InertiaAtCogOf(d: MetricData): Option<Grid> { d.inertiaAtCog }
  function PrincipleOf(d: MetricData): Option<Value> { d.principle }
  function SurfaceAreaOf(d: MetricData): Value { d.surfaceArea }
  function VolumeOf(d: MetricData): Value { d.volume }
  function MassOf(d: MetricData): Value { d.mass }
  function UnitsOf(d: MetricData): Value { d.units }

  /** The per-MetricID dicts the MetricComponent loop fills. */
  datatype MetricTables = MetricTables(
    csys: map<MetricId, Option<string>>,
    generatedName: map<MetricId, Option<string>>,
    boundingBox: map<MetricId, Value>,
    cog: map<MetricId, seq<Num>>,
    inertiaAtDefault: map<MetricId, Grid>,
    inertiaAtCog: map<MetricId, Grid>,
    principle: map<MetricId, Value>,
    surfaceArea: map<MetricId, Value>,
    volume: map<MetricId, Value>,
    mass: map<MetricId, Value>,
    units: map<MetricId, Value>)

  /** The dicts that are written on every iteration share one key set; the optional ones stay within it. */
  predicate Consistent(t: MetricTables)
  {
    var ks := t.csys.Keys;
    t.generatedName.Keys == ks && t.boundingBox.Keys == ks && t.surfaceArea.Keys == ks
    && t.volume.Keys == ks && t.mass.Keys == ks && t.units.Keys == ks
  }

  /** The dicts after the loop: always-written data last-wins, optional data only written when present. */
  function Tabulate(ds: seq<MetricData>): (t: MetricTables)
    ensures Consistent(t) && t.csys.Keys == KeySet(ds, MetricKeyOf)
  {
    MetricTables(
      TableBy(ds, MetricKeyOf, CsysOf), TableBy(ds, MetricKeyOf, GeneratedNameOf), TableBy(ds, MetricKeyOf, BoundingBoxOf),
      OptTableBy(ds, MetricKeyOf, CogOf), OptTableBy(ds, MetricKeyOf, InertiaAtDefaultOf),
      OptTableBy(ds, MetricKeyOf, InertiaAtCogOf), OptTableBy(ds, MetricKeyOf, PrincipleOf),
      TableBy(ds, MetricKeyOf, SurfaceAreaOf), TableBy(ds, MetricKeyOf, VolumeOf), TableBy(ds, MetricKeyOf, MassOf),
      TableBy(ds, MetricKeyOf, UnitsOf))
  }

  /** What the join reads for one MetricID: `table[met]` for the always-written dicts, `table.get(met, None)` for the rest. */
  function Joined(t: MetricTables, met: MetricId): MetricData
    requires Consistent(t) && met in t.csys
  {
    MetricData(met, t.csys[met], t.generatedName[met], t.boundingBox[met], GetOrNone(t.cog, met),
               GetOrNone(t.inertiaAtDefault, met), GetOrNone(t.inertiaAtCog, met), GetOrNone(t.principle, met),
               t.surfaceArea[met], t.volume[met], t.mass[met], t.units[met])
  }

  function MatrixOrNull(g: Option<Grid>): Value { if g.Some? then Matrix(g.value) else Null }
  function VectorOrNull(v: Option<seq<Num>>): Value { if v.Some? then Vector(v.value) else Null }
  function ValueOrNull(v: Option<Value>): Value { if v.Some? then v.value else Null }

  /** The `component_data` dict written for one component. */
  function MetricRecord(rotation: Option<Grid>, translation: Option<seq<Num>>, d: MetricData): Record
  {
    map[
      MetricId := OptText(d.met),
      Rotation := MatrixOrNull(rotation),
      Translation := VectorOrNull(translation),
      CoordinateSystem := OptText(d.csys),
      CadFilenameGenerated := OptText(d.generatedName),
      BoundingBox := d.boundingBox,
      CenterOfGravity := VectorOrNull(d.cog),
      Inertia := InertiaDict(d),
      SurfaceArea := d.surfaceArea,
      Volume := d.volume,
      Mass := d.mass,
      Units := d.units]
  }

  /** The nested `inertia` dict. */
  function InertiaDict(d: MetricData): Value
  {
    Dict(map[
      "inertia_tensor_at_default_csys" := MatrixOrNull(d.inertiaAtDefault),
      "inertia_tensor_at_center_of_gravity" := MatrixOrNull(d.inertiaAtCog),
      "principle_moments_of_inertia" := ValueOrNull(d.principle)])
  }

  /** The records of the join loop for the component instances whose MetricID is defined. */
  function JoinRecords(compToMetric: map<ComponentId, MetricId>, rotation: map<ComponentId, Grid>,
                       translation: map<ComponentId, seq<Num>>, t: MetricTables): (r: Components)
    requires Consistent(t)
    ensures forall comp <- r.Keys :: comp in compToMetric && compToMetric[comp] in t.csys
  {
    map comp | comp in compToMetric && compToMetric[comp] in t.csys ::
      MetricRecord(GetOrNone(rotation, comp), GetOrNone(translation, comp), Joined(t, compToMetric[comp]))
  }

  /** The loop body of the join for one component instance: None where looking its MetricID up raises KeyError. */
  function RecordFor(compToMetric: map<ComponentId, MetricId>, rotation: map<ComponentId, Grid>,
                     translation: map<ComponentId, seq<Num>>, t: MetricTables): ComponentId -> Option<Record>
    requires Consistent(t)
  {
    comp =>
      if comp in compToMetric && compToMetric[comp] in t.csys then
        Some(MetricRecord(GetOrNone(rotation, comp), GetOrNone(translation, comp), Joined(t, compToMetric[comp])))
      else None
  }

  /** The loop body builds the join's record exactly where the MetricID is defined. */
  lemma RecordForAt(compToMetric: map<ComponentId, MetricId>, rotation: map<ComponentId, Grid>,
                    translation: map<ComponentId, seq<Num>>, t: MetricTables, comp: ComponentId)
    requires Consistent(t) && comp in compToMetric
    ensures RecordFor(compToMetric, rotation, translation, t)(comp).Some? <==> compToMetric[comp] in t.csys
    ensures RecordFor(compToMetric, rotation, translation, t)(comp).Some? ==>
              comp in JoinRecords(compToMetric, rotation, translation, t)
              && RecordFor(compToMetric, rotation, translation, t)(comp).value
                 == JoinRecords(compToMetric, rotation, translation, t)[comp]
  {
    if compToMetric[comp] in t.csys {
      JoinRecordAt(compToMetric, rotation, translation, t, comp);
    }
  }

  /** When every MetricID is defined, the loop body builds the join's records. */
  lemma JoinRecordsBuilt(compToMetric: map<ComponentId, MetricId>, rotation: map<ComponentId, Grid>,
                         translation: map<ComponentId, seq<Num>>, t: MetricTables)
    requires Consistent(t) && forall comp <- compToMetric.Keys :: compToMetric[comp] in t.csys
    ensures JoinRecords(compToMetric, rotation, translation, t)
            == Built(compToMetric.Keys, RecordFor(compToMetric, rotation, translation, t))
  {
    var j := JoinRecords(compToMetric, rotation, translation, t);
    var build := RecordFor(compToMetric, rotation, translation, t);
    forall comp | comp in compToMetric.Keys
      ensures comp in j && build(comp) == Some(j[comp])
    {
      RecordForAt(compToMetric, rotation, translation, t, comp);
    }
    BuiltIs(j, compToMetric.Keys, build);
  }

  /** The join is the loop body run on every component instance. */
  lemma JoinIsBuilt(compToMetric: map<ComponentId, MetricId>, rotation: map<ComponentId, Grid>,
                    translation: map<ComponentId, seq<Num>>, t: MetricTables)
    requires Consistent(t)
    ensures var build := RecordFor(compToMetric, rotation, translation, t);
            && (Join(compToMetric, rotation, translation, t).Ok? <==> forall comp <- compToMetric.Keys :: build(comp).Some?)
            && (Join(compToMetric, rotation, translation, t).Ok? ==>
                  Join(compToMetric, rotation, translation, t).value == Built(compToMetric.Keys, build))
  {
    var build := RecordFor(compToMetric, rotation, translation, t);
    forall comp | comp in compToMetric.Keys
      ensures build(comp).Some? <==> compToMetric[comp] in t.csys
    {
      RecordForAt(compToMetric, rotation, translation, t, comp);
    }
    if forall comp <- compToMetric.Keys :: compToMetric[comp] in t.csys {
      JoinOk(compToMetric, rotation, translation, t);
      JoinRecordsBuilt(compToMetric, rotation, translation, t);
    }
  }

  /** The record the join loop builds for one component instance. */
  lemma JoinRecordAt(compToMetric: map<ComponentId, MetricId>, rotation: map<ComponentId, Grid>,
                     translation: map<ComponentId, seq<Num>>, t: MetricTables, comp: ComponentId)
    requires Consistent(t) && comp in compToMetric && compToMetric[comp] in t.csys
    ensures comp in JoinRecords(compToMetric, rotation, translation, t)
    ensures JoinRecords(compToMetric, rotation, translation, t)[comp]
            == MetricRecord(GetOrNone(rotation, comp), GetOrNone(translation, comp), Joined(t, compToMetric[comp]))
  {
  }

  /** When every MetricID is defined, the join yields all the records. */
  lemma JoinOk(compToMetric: map<ComponentId, MetricId>, rotation: map<ComponentId, Grid>,
               translation: map<ComponentId, seq<Num>>, t: MetricTables)
    requires Consistent(t) && forall comp <- compToMetric.Keys :: compToMetric[comp] in t.csys
    ensures Join(compToMetric, rotation, translation, t) == Ok(JoinRecords(compToMetric, rotation, translation, t))
  {
  }

  /**
   * The join loop: every component instance gets a record from its MetricID's
   * data; a MetricID no MetricComponent defines raises KeyError.
   */
  function Join(compToMetric: map<ComponentId, MetricId>, rotation: map<ComponentId, Grid>,
                translation: map<ComponentId, seq<Num>>, t: MetricTables): (r: Outcome<Components>)
    requires Consistent(t)
    ensures r.Ok? <==> forall comp <- compToMetric.Keys :: compToMetric[comp] in t.csys
    ensures r.Err? ==> r.error == UndefinedMetric
    ensures r.Ok? ==> r.value.Keys == compToMetric.Keys
  {
    if forall comp <- compToMetric.Keys :: compToMetric[comp] in t.csys then
      Ok(JoinRecords(compToMetric, rotation, translation, t))
    else Err(UndefinedMetric)
  }

  function CadComponents(root: Element): seq<Element> { Iter(root, "CADComponent") }

  /** `comp_to_metric`: ComponentInstanceID to MetricID, over every CADComponent at any depth. */
  function CompToMetric(root: Element): (t: map<ComponentId, MetricId>)
    ensures t.Keys == KeySet(CadComponents(root), InstanceIdOf)
  {
    TableBy(CadComponents(root), InstanceIdOf, MetricIdOf)
  }

  function ChildMetrics(root: Element): seq<Element> { FindAll(root, ChildMetricPath) }

  function MetricComponents(root: Element): seq<Element> { Iter(root, "MetricComponent") }

  /** The partial records the metrics pass merges into `components`, or the exception it raises. */
  function MetricsPartials(root: Element): (r: Outcome<Components>)
    ensures r.Ok? ==> r.value.Keys == KeySet(CadComponents(root), InstanceIdOf)
  {
    var ps :- Collect(ChildMetrics(root), PlacementOf);
    var ds :- Collect(MetricComponents(root), MetricDataOf);
    Join(CompToMetric(root), TableBy(ps, PlacedId, RotationOf), TableBy(ps, PlacedId, TranslationOf), Tabulate(ds))
  }

  /** The fields of a `component_data` dict, one by one. */
  lemma MetricRecordKeys(rotation: Option<Grid>, translation: Option<seq<Num>>, d: MetricData)
    ensures MetricRecord(rotation, translation, d).Keys == MetricKeys
  {
  }

  /** The join writes only the metric fields. */
  lemma JoinWritten(compToMetric: map<ComponentId, MetricId>, rotation: map<ComponentId, Grid>,
                    translation: map<ComponentId, seq<Num>>, t: MetricTables)
    requires Consistent(t) && Join(compToMetric, rotation, translation, t).Ok?
    ensures WrittenBy(Join(compToMetric, rotation, translation, t).value, MetricsWriter)
  {
    var j := Join(compToMetric, rotation, translation, t).value;
    forall k <- j.Keys
      ensures forall g <- j[k].Keys :: WriterOf(g) == MetricsWriter
    {
      var rec := MetricRecord(GetOrNone(rotation, k), GetOrNone(translation, k), Joined(t, compToMetric[k]));
      assert j[k] == rec;
      MetricRecordKeys(GetOrNone(rotation, k), GetOrNone(translation, k), Joined(t, compToMetric[k]));
      MetricKeysWritten();
    }
  }

  lemma MetricKeysWritten()
    ensures forall g <- MetricKeys :: WriterOf(g) == MetricsWriter
  {
  }

  lemma MetricRecordFields(rotation: Option<Grid>, translation: Option<seq<Num>>, d: MetricData)
    ensures MetricRecord(rotation, translation, d)[MetricId] == OptText(d.met)
    ensures MetricRecord(rotation, translation, d)[Rotation] == MatrixOrNull(rotation)
    ensures MetricRecord(rotation, translation, d)[Translation] == VectorOrNull(translation)
    ensures MetricRecord(rotation, translation, d)[CoordinateSystem] == OptText(d.csys)
    ensures MetricRecord(rotation, translation, d)[CadFilenameGenerated] == OptText(d.generatedName)
    ensures MetricRecord(rotation, translation, d)[BoundingBox] == d.boundingBox
    ensures MetricRecord(rotation, translation, d)[CenterOfGravity] == VectorOrNull(d.cog)
    ensures MetricRecord(rotation, translation, d)[Inertia] == InertiaDict(d)
    ensures MetricRecord(rotation, translation, d)[SurfaceArea] == d.surfaceArea
    ensures MetricRecord(rotation, translation, d)[Volume] == d.volume
    ensures MetricRecord(rotation, translation, d)[Mass] == d.mass
    ensures MetricRecord(rotation, translation, d)[Units] == d.units
  {
  }

  /** The MetricComponents' data, position by position. */
  lemma CollectedMetricData(mcs: seq<Element>)
    requires Collect(mcs, MetricDataOf).Ok?
    ensures var ds := Collect(mcs, MetricDataOf).value;
            |ds| == |mcs| && (forall j | 0 <= j < |mcs| :: Describes(mcs[j], ds[j]))
            && (forall j | 0 <= j < |mcs| :: ds[j].met == Get(mcs[j], "MetricID"))
            && (forall j | 0 <= j < |mcs| :: CogRead(mcs[j], ds[j].cog))
            && (forall j | 0 <= j < |mcs| :: InertiaRead(mcs[j], FindInertiaAtDefault, ds[j].inertiaAtDefault))
            && (forall j | 0 <= j < |mcs| :: InertiaRead(mcs[j], FindInertiaAtCog, ds[j].inertiaAtCog))
            && (forall j | 0 <= j < |mcs| :: PrincipleRead(mcs[j], ds[j].principle))
  {
    var ds := Collect(mcs, MetricDataOf).value;
    forall j | 0 <= j < |mcs|
      ensures Describes(mcs[j], ds[j])
    {
      MetricDataFacts(mcs[j]);
    }
  }

  /** `a` and `b` agree on the data that is written on every iteration. */
  predicate AlwaysWrittenAgree(a: MetricData, b: MetricData)
  {
    a.csys == b.csys && a.generatedName == b.generatedName && a.boundingBox == b.boundingBox
    && a.surfaceArea == b.surfaceArea && a.volume == b.volume && a.mass == b.mass && a.units == b.units
  }

  /**
   * The always-written data the join reads for a MetricID (coordinate system,
   * generated file name, bounding box, scalars, units) all come from the last
   * MetricComponent carrying that MetricID.
   */
  lemma JoinedAlwaysWritten(ds: seq<MetricData>, met: MetricId, i: int)
    requires IsLast(ds, MetricKeyOf, met, i)
    ensures met in Tabulate(ds).csys && AlwaysWrittenAgree(Joined(Tabulate(ds), met), ds[i])
  {
    TableAtLast(ds, MetricKeyOf, CsysOf, met, i);
    TableAtLast(ds, MetricKeyOf, GeneratedNameOf, met, i);
    TableAtLast(ds, MetricKeyOf, BoundingBoxOf, met, i);
    TableAtLast(ds, MetricKeyOf, SurfaceAreaOf, met, i);
    TableAtLast(ds, MetricKeyOf, VolumeOf, met, i);
    TableAtLast(ds, MetricKeyOf, MassOf, met, i);
    TableAtLast(ds, MetricKeyOf, UnitsOf, met, i);
  }

  /** How the record of one component instance is assembled from the placement dicts and its MetricID's data. */
  lemma MetricsRecordJoin(root: Element, comp: ComponentId)
    requires MetricsPartials(root).Ok? && comp in MetricsPartials(root).value
    ensures Collect(ChildMetrics(root), PlacementOf).Ok? && Collect(MetricComponents(root), MetricDataOf).Ok?
    ensures comp in CompToMetric(root)
    ensures var ps := Collect(ChildMetrics(root), PlacementOf).value;
            var t := Tabulate(Collect(MetricComponents(root), MetricDataOf).value);
            CompToMetric(root)[comp] in t.csys
            && MetricsPartials(root).value[comp]
               == MetricRecord(GetOrNone(TableBy(ps, PlacedId, RotationOf), comp),
                               GetOrNone(TableBy(ps, PlacedId, TranslationOf), comp), Joined(t, CompToMetric(root)[comp]))
  {
    var ps := Collect(ChildMetrics(root), PlacementOf).value;
    var ds := Collect(MetricComponents(root), MetricDataOf).value;
    var rotation, translation := TableBy(ps, PlacedId, RotationOf), TableBy(ps, PlacedId, TranslationOf);
    MetricsPartialsJoin(root, ps, ds);
    JoinOk(CompToMetric(root), rotation, translation, Tabulate(ds));
    JoinRecordAt(CompToMetric(root), rotation, translation, Tabulate(ds), comp);
  }

  /**
   * A record holds exactly the twelve metric fields, and its metric_id is the
   * MetricID of the last CADComponent carrying the instance's ComponentInstanceID.
   */
  lemma MetricsRecordKeys(root: Element, comp: ComponentId)
    requires MetricsPartials(root).Ok? && comp in MetricsPartials(root).value
    ensures MetricsPartials(root).value[comp].Keys == MetricKeys
    ensures exists k :: IsLast(CadComponents(root), InstanceIdOf, comp, k)
                        && MetricsPartials(root).value[comp][MetricId] == OptText(Get(CadComponents(root)[k], "MetricID"))
  {
    MetricsRecordJoin(root, comp);
    var ps := Collect(ChildMetrics(root), PlacementOf).value;
    var t := Tabulate(Collect(MetricComponents(root), MetricDataOf).value);
    var rotation, translation := GetOrNone(TableBy(ps, PlacedId, RotationOf), comp), GetOrNone(TableBy(ps, PlacedId, TranslationOf), comp);
    var d := Joined(t, CompToMetric(root)[comp]);
    MetricRecordKeys(rotation, translation, d);
    MetricRecordFields(rotation, translation, d);
    var rec := MetricsPartials(root).value[comp];
    assert rec == MetricRecord(rotation, translation, d);
    var cads := CadComponents(root);
    TableByLast(cads, InstanceIdOf, MetricIdOf, comp);
  }

  /** The ChildMetrics' placements, position by position. */
  lemma CollectedPlacements(cs: seq<Element>)
    requires Collect(cs, PlacementOf).Ok?
    ensures var ps := Collect(cs, PlacementOf).value;
            |ps| == |cs| && (forall j | 0 <= j < |cs| :: Places(cs[j], ps[j]))
            && forall j | 0 <= j < |cs| :: ps[j].comp == Get(cs[j], "ComponentInstanceID")
  {
  }

  /**
   * The rotation and translation dicts hold an entry exactly for the
   * ComponentInstanceIDs some ChildMetric carries, taken from the last such
   * ChildMetric.
   */
  lemma PlacementsByLast(cs: seq<Element>, ps: seq<Placement>, comp: ComponentId)
    requires |ps| == |cs| && forall j | 0 <= j < |cs| :: ps[j].comp == Get(cs[j], "ComponentInstanceID")
    ensures comp in TableBy(ps, PlacedId, RotationOf) <==> exists i | 0 <= i < |cs| :: Get(cs[i], "ComponentInstanceID") == comp
    ensures comp in TableBy(ps, PlacedId, TranslationOf) <==> comp in TableBy(ps, PlacedId, RotationOf)
    ensures comp in TableBy(ps, PlacedId, RotationOf) ==>
              exists i :: IsLast(cs, InstanceIdOf, comp, i) && TableBy(ps, PlacedId, RotationOf)[comp] == ps[i].rotation
                          && TableBy(ps, PlacedId, TranslationOf)[comp] == ps[i].translation
  {
    KeySetMember(ps, PlacedId, comp);
    if comp in KeySet(ps, PlacedId) {
      var i := LastOf(ps, PlacedId, comp);
      TableAtLast(ps, PlacedId, RotationOf, comp, i);
      TableAtLast(ps, PlacedId, TranslationOf, comp, i);
      IsLastTransfer(ps, PlacedId, cs, InstanceIdOf, comp, i);
    }
  }

  /**
   * The rotation and translation values of `comp` are set exactly when some
   * ChildMetric in `cs` places `comp`, and then come from the last such
   * ChildMetric: its RotationMatrix read as a 3x3 grid and its Translation
   * read in X, Y, Z order.
   */
  predicate PlacedBy(cs: seq<Element>, comp: ComponentId, rotation: Value, translation: Value)
  {
    (rotation != Null <==> exists i | 0 <= i < |cs| :: Get(cs[i], "ComponentInstanceID") == comp)
    && (translation != Null <==> rotation != Null)
    && (rotation != Null ==>
          exists i | 0 <= i < |cs| :: IsLast(cs, InstanceIdOf, comp, i)
                      && rotation.Matrix? && Find(cs[i], [Child("RotationMatrix")]).Some?
                      && Ok(rotation.rows) == MatrixOf(Find(cs[i], [Child("RotationMatrix")]).value, None)
                      && translation.Vector? && Find(cs[i], [Child("Translation")]).Some?
                      && Ok(translation.items) == XyzVector(Find(cs[i], [Child("Translation")]).value))
  }

  lemma PlacedByJoin(cs: seq<Element>, ps: seq<Placement>, comp: ComponentId)
    requires |ps| == |cs| && forall j | 0 <= j < |cs| :: ps[j].comp == Get(cs[j], "ComponentInstanceID")
    requires forall j | 0 <= j < |cs| :: Places(cs[j], ps[j])
    ensures PlacedBy(cs, comp, MatrixOrNull(GetOrNone(TableBy(ps, PlacedId, RotationOf), comp)),
                     VectorOrNull(GetOrNone(TableBy(ps, PlacedId, TranslationOf), comp)))
  {
    PlacementsByLast(cs, ps, comp);
  }

  /**
   * Only the instances placed by a ChildMetric under the MetricComponent with
   * MetricID '1' get a rotation and a translation.
   */
  lemma MetricsPlacement(root: Element, comp: ComponentId)
    requires MetricsPartials(root).Ok? && comp in MetricsPartials(root).value
    ensures Rotation in MetricsPartials(root).value[comp] && Translation in MetricsPartials(root).value[comp]
    ensures PlacedBy(ChildMetrics(root), comp, MetricsPartials(root).value[comp][Rotation],
                     MetricsPartials(root).value[comp][Translation])
  {
    MetricsRecordJoin(root, comp);
    var cs := ChildMetrics(root);
    var ps := Collect(cs, PlacementOf).value;
    var t := Tabulate(Collect(MetricComponents(root), MetricDataOf).value);
    var rotation, translation := GetOrNone(TableBy(ps, PlacedId, RotationOf), comp), GetOrNone(TableBy(ps, PlacedId, TranslationOf), comp);
    MetricRecordKeys(rotation, translation, Joined(t, CompToMetric(root)[comp]));
    MetricRecordFields(rotation, translation, Joined(t, CompToMetric(root)[comp]));
    CollectedPlacements(cs);
    PlacedByJoin(cs, ps, comp);
  }

  // ---------------------------------------------------------------- metric data in the records

  /**
   * The fields of `rec` that every MetricComponent writes (coordinate system,
   * generated file name, bounding box, scalars, units) are those of `mc`.
   */
  predicate AlwaysWrittenFrom(mc: Element, rec: Record)
  {
    MetricKeys <= rec.Keys
    && rec[CoordinateSystem] == OptText(Get(mc, "CoordinateSystem"))
    && rec[CadFilenameGenerated] == OptText(Get(mc, "Name"))
    && Find(mc, [Child("BoundingBox")]).Some?
    && Ok(rec[BoundingBox]) == ReadBoundingBox(Find(mc, [Child("BoundingBox")]).value)
    && Ok(rec[SurfaceArea]) == GetScalar(mc, "SurfaceArea")
    && Ok(rec[Volume]) == GetScalar(mc, "Volume")
    && Ok(rec[Mass]) == GetScalar(mc, "Mass")
    && Find(mc, [Child("Units")]).Some?
    && rec[Units] == ReadUnits(Find(mc, [Child("Units")]).value)
  }

  lemma AlwaysWrittenRecord(mc: Element, read: MetricData, rotation: Option<Grid>, translation: Option<seq<Num>>, d: MetricData)
    requires Describes(mc, read) && AlwaysWrittenAgree(d, read)
    ensures AlwaysWrittenFrom(mc, MetricRecord(rotation, translation, d))
  {
    MetricRecordKeys(rotation, translation, d);
    MetricRecordFields(rotation, translation, d);
  }

  /** The last MetricData with a MetricID was read from the last MetricComponent with it. */
  lemma LastMetricComponent(mcs: seq<Element>, met: MetricId, i: int)
    requires Collect(mcs, MetricDataOf).Ok? && IsLast(Collect(mcs, MetricDataOf).value, MetricKeyOf, met, i)
    ensures |Collect(mcs, MetricDataOf).value| == |mcs|
    ensures IsLast(mcs, MetricIdOf, met, i) && Describes(mcs[i], Collect(mcs, MetricDataOf).value[i])
  {
    CollectedMetricData(mcs);
    IsLastTransfer(Collect(mcs, MetricDataOf).value, MetricKeyOf, mcs, MetricIdOf, met, i);
  }

  lemma AlwaysWrittenByLast(mcs: seq<Element>, ds: seq<MetricData>, met: MetricId, i: int,
                            rotation: Option<Grid>, translation: Option<seq<Num>>)
    requires |ds| == |mcs|
    requires IsLast(ds, MetricKeyOf, met, i) && Describes(mcs[i], ds[i])
    ensures met in Tabulate(ds).csys
    ensures AlwaysWrittenFrom(mcs[i], MetricRecord(rotation, translation, Joined(Tabulate(ds), met)))
  {
    JoinedAlwaysWritten(ds, met, i);
    AlwaysWrittenRecord(mcs[i], ds[i], rotation, translation, Joined(Tabulate(ds), met));
  }

  /**
   * The always-written fields of an instance's record come from the last
   * MetricComponent whose MetricID is the instance's MetricID; earlier
   * MetricComponents with the same MetricID are overwritten.
   */
  lemma MetricsAlwaysWritten(root: Element, comp: ComponentId)
    requires MetricsPartials(root).Ok? && comp in MetricsPartials(root).value
    ensures comp in CompToMetric(root)
    ensures exists i | 0 <= i < |MetricComponents(root)| ::
              IsLast(MetricComponents(root), MetricIdOf, CompToMetric(root)[comp], i)
              && AlwaysWrittenFrom(MetricComponents(root)[i], MetricsPartials(root).value[comp])
  {
    MetricsRecordJoin(root, comp);
    var mcs := MetricComponents(root);
    var ps := Collect(ChildMetrics(root), PlacementOf).value;
    var ds := Collect(mcs, MetricDataOf).value;
    var met := CompToMetric(root)[comp];
    var i := LastOf(ds, MetricKeyOf, met);
    LastMetricComponent(mcs, met, i);
    AlwaysWrittenByLast(mcs, ds, met, i, GetOrNone(TableBy(ps, PlacedId, RotationOf), comp),
                        GetOrNone(TableBy(ps, PlacedId, TranslationOf), comp));
    assert IsLast(mcs, MetricIdOf, met, i) && AlwaysWrittenFrom(mcs[i], MetricsPartials(root).value[comp]);
  }

  /**
   * For one optional item of a MetricID: the joined value is None exactly
   * when no MetricComponent with that MetricID has the item's element.
   */
  lemma OptionalNone<V>(mcs: seq<Element>, ds: seq<MetricData>, val: MetricData -> Option<V>,
                        find: Element -> Option<Element>, met: MetricId)
    requires |ds| == |mcs| && forall j | 0 <= j < |mcs| :: ds[j].met == Get(mcs[j], "MetricID")
    requires forall j | 0 <= j < |mcs| :: val(ds[j]).Some? <==> find(mcs[j]).Some?
    ensures GetOrNone(OptTableBy(ds, MetricKeyOf, val), met).None?
            <==> forall j | 0 <= j < |mcs| && Get(mcs[j], "MetricID") == met :: find(mcs[j]).None?
  {
    GetOptTable(ds, MetricKeyOf, val, met);
  }

  /** When the joined value is present, it is what the last MetricComponent with the element held. */
  lemma OptionalLast<V>(mcs: seq<Element>, ds: seq<MetricData>, val: MetricData -> Option<V>,
                        find: Element -> Option<Element>, met: MetricId) returns (i: int)
    requires |ds| == |mcs| && forall j | 0 <= j < |mcs| :: ds[j].met == Get(mcs[j], "MetricID")
    requires forall j | 0 <= j < |mcs| :: val(ds[j]).Some? <==> find(mcs[j]).Some?
    requires GetOrNone(OptTableBy(ds, MetricKeyOf, val), met).Some?
    ensures IsLastSome(mcs, MetricIdOf, find, met, i) && GetOrNone(OptTableBy(ds, MetricKeyOf, val), met) == val(ds[i])
  {
    GetOptTable(ds, MetricKeyOf, val, met);
    i :| IsLastSome(ds, MetricKeyOf, val, met, i) && GetOrNone(OptTableBy(ds, MetricKeyOf, val), met) == val(ds[i]);
    IsLastSomeTransfer(ds, MetricKeyOf, val, mcs, MetricIdOf, find, met, i);
  }

  /** `v` is null exactly when no MetricComponent with MetricID `met` has a CG, else the last CG read in X, Y, Z order. */
  predicate CogFrom(mcs: seq<Element>, met: MetricId, v: Value)
  {
    (v == Null <==> forall j | 0 <= j < |mcs| && Get(mcs[j], "MetricID") == met :: FindCg(mcs[j]).None?)
    && (v != Null ==>
          exists i | 0 <= i < |mcs| :: IsLastSome(mcs, MetricIdOf, FindCg, met, i)
                                       && v.Vector? && Ok(v.items) == XyzVector(FindCg(mcs[i]).value))
  }

  /** The same for an inertia tensor, found by `find` and read as a 3x3 grid. */
  predicate InertiaFrom(mcs: seq<Element>, met: MetricId, find: Element -> Option<Element>, v: Value)
  {
    (v == Null <==> forall j | 0 <= j < |mcs| && Get(mcs[j], "MetricID") == met :: find(mcs[j]).None?)
    && (v != Null ==>
          exists i | 0 <= i < |mcs| :: IsLastSome(mcs, MetricIdOf, find, met, i)
                                       && v.Matrix? && Ok(v.rows) == MatrixOf(find(mcs[i]).value, None))
  }

  /** The same for the principal moments block. */
  predicate PrincipleFrom(mcs: seq<Element>, met: MetricId, v: Value)
  {
    (v == Null <==> forall j | 0 <= j < |mcs| && Get(mcs[j], "MetricID") == met :: FindPrinciple(mcs[j]).None?)
    && (v != Null ==>
          exists i | 0 <= i < |mcs| :: IsLastSome(mcs, MetricIdOf, FindPrinciple, met, i)
                                       && Ok(v) == PrincipleDict(FindPrinciple(mcs[i]).value))
  }

  lemma CogByLast(mcs: seq<Element>, ds: seq<MetricData>, met: MetricId)
    requires |ds| == |mcs| && forall j | 0 <= j < |mcs| :: ds[j].met == Get(mcs[j], "MetricID")
    requires forall j | 0 <= j < |mcs| :: CogRead(mcs[j], ds[j].cog)
    ensures CogFrom(mcs, met, VectorOrNull(GetOrNone(OptTableBy(ds, MetricKeyOf, CogOf), met)))
  {
    OptionalNone(mcs, ds, CogOf, FindCg, met);
    if GetOrNone(OptTableBy(ds, MetricKeyOf, CogOf), met).Some? {
      var i := OptionalLast(mcs, ds, CogOf, FindCg, met);
    }
  }

  lemma InertiaByLast(mcs: seq<Element>, ds: seq<MetricData>, met: MetricId,
                      val: MetricData -> Option<Grid>, find: Element -> Option<Element>)
    requires |ds| == |mcs| && forall j | 0 <= j < |mcs| :: ds[j].met == Get(mcs[j], "MetricID")
    requires forall j | 0 <= j < |mcs| :: InertiaRead(mcs[j], find, val(ds[j]))
    ensures InertiaFrom(mcs, met, find, MatrixOrNull(GetOrNone(OptTableBy(ds, MetricKeyOf, val), met)))
  {
    OptionalNone(mcs, ds, val, find, met);
    if GetOrNone(OptTableBy(ds, MetricKeyOf, val), met).Some? {
      var i := OptionalLast(mcs, ds, val, find, met);
    }
  }

  lemma PrincipleByLast(mcs: seq<Element>, ds: seq<MetricData>, met: MetricId)
    requires |ds| == |mcs| && forall j | 0 <= j < |mcs| :: ds[j].met == Get(mcs[j], "MetricID")
    requires forall j | 0 <= j < |mcs| :: PrincipleRead(mcs[j], ds[j].principle)
    ensures PrincipleFrom(mcs, met, ValueOrNull(GetOrNone(OptTableBy(ds, MetricKeyOf, PrincipleOf), met)))
  {
    OptionalNone(mcs, ds, PrincipleOf, FindPrinciple, met);
    if GetOrNone(OptTableBy(ds, MetricKeyOf, PrincipleOf), met).Some? {
      var i := OptionalLast(mcs, ds, PrincipleOf, FindPrinciple, met);
    }
  }

  /** The entries of the nested `inertia` dict. */
  lemma InertiaDictFields(d: MetricData)
    ensures InertiaDict(d).Dict?
    ensures InertiaDict(d).entries.Keys
            == {"inertia_tensor_at_default_csys", "inertia_tensor_at_center_of_gravity", "principle_moments_of_inertia"}
    ensures InertiaDict(d).entries["inertia_tensor_at_default_csys"] == MatrixOrNull(d.inertiaAtDefault)
    ensures InertiaDict(d).entries["inertia_tensor_at_center_of_gravity"] == MatrixOrNull(d.inertiaAtCog)
    ensures InertiaDict(d).entries["principle_moments_of_inertia"] == ValueOrNull(d.principle)
  {
  }

  /** The optional items of `rec`: centre of gravity and the three entries of the `inertia` dict. */
  predicate OptionalFrom(mcs: seq<Element>, met: MetricId, rec: Record)
  {
    CenterOfGravity in rec && CogFrom(mcs, met, rec[CenterOfGravity])
    && Inertia in rec && rec[Inertia].Dict?
    && "inertia_tensor_at_default_csys" in rec[Inertia].entries
    && InertiaFrom(mcs, met, FindInertiaAtDefault, rec[Inertia].entries["inertia_tensor_at_default_csys"])
    && "inertia_tensor_at_center_of_gravity" in rec[Inertia].entries
    && InertiaFrom(mcs, met, FindInertiaAtCog, rec[Inertia].entries["inertia_tensor_at_center_of_gravity"])
    && "principle_moments_of_inertia" in rec[Inertia].entries
    && PrincipleFrom(mcs, met, rec[Inertia].entries["principle_moments_of_inertia"])
  }

  lemma OptionalRecord(mcs: seq<Element>, ds: seq<MetricData>, met: MetricId,
                       rotation: Option<Grid>, translation: Option<seq<Num>>)
    requires |ds| == |mcs| && (forall j | 0 <= j < |mcs| :: ds[j].met == Get(mcs[j], "MetricID"))
    requires forall j | 0 <= j < |mcs| :: CogRead(mcs[j], ds[j].cog)
    requires forall j | 0 <= j < |mcs| :: InertiaRead(mcs[j], FindInertiaAtDefault, ds[j].inertiaAtDefault)
    requires forall j | 0 <= j < |mcs| :: InertiaRead(mcs[j], FindInertiaAtCog, ds[j].inertiaAtCog)
    requires forall j | 0 <= j < |mcs| :: PrincipleRead(mcs[j], ds[j].principle)
    requires met in Tabulate(ds).csys
    ensures OptionalFrom(mcs, met, MetricRecord(rotation, translation, Joined(Tabulate(ds), met)))
  {
    var d := Joined(Tabulate(ds), met);
    CogByLast(mcs, ds, met);
    InertiaByLast(mcs, ds, met, InertiaAtDefaultOf, FindInertiaAtDefault);
    InertiaByLast(mcs, ds, met, InertiaAtCogOf, FindInertiaAtCog);
    PrincipleByLast(mcs, ds, met);
    MetricRecordFields(rotation, translation, d);
    InertiaDictFields(d);
  }

  /**
   * The centre of gravity and each inertia entry of an instance's record are
   * null exactly when no MetricComponent with the instance's MetricID has the
   * element (each tensor selected by its own At value); otherwise they come
   * from the last MetricComponent with that MetricID that has it, even when a
   * later one lacks it.
   */
  lemma MetricsOptional(root: Element, comp: ComponentId)
    requires MetricsPartials(root).Ok? && comp in MetricsPartials(root).value
    ensures comp in CompToMetric(root)
    ensures OptionalFrom(MetricComponents(root), CompToMetric(root)[comp], MetricsPartials(root).value[comp])
  {
    MetricsRecordJoin(root, comp);
    var mcs := MetricComponents(root);
    var ps := Collect(ChildMetrics(root), PlacementOf).value;
    var ds := Collect(mcs, MetricDataOf).value;
    CollectedMetricData(mcs);
    OptionalRecord(mcs, ds, CompToMetric(root)[comp], GetOrNone(TableBy(ps, PlacedId, RotationOf), comp),
                   GetOrNone(TableBy(ps, PlacedId, TranslationOf), comp));
  }

  /** The MetricIDs the MetricComponents carry, position by position. */
  lemma CollectedMetricIds(mcs: seq<Element>)
    requires Collect(mcs, MetricDataOf).Ok?
    ensures KeySet(Collect(mcs, MetricDataOf).value, MetricKeyOf) == KeySet(mcs, MetricIdOf)
  {
    var ds := Collect(mcs, MetricDataOf).value;
    forall j | 0 <= j < |mcs|
      ensures MetricKeyOf(ds[j]) == MetricIdOf(mcs[j])
    {
      MetricDataFacts(mcs[j]);
    }
    KeySetTransfer(ds, MetricKeyOf, mcs, MetricIdOf);
  }

  /**
   * The pass fails with the first ChildMetric that cannot be read, else with
   * the first MetricComponent that cannot be read, else with KeyError exactly
   * when some CADComponent names a MetricID no MetricComponent carries.
   */
  lemma MetricsOutcome(root: Element)
    ensures Collect(ChildMetrics(root), PlacementOf).Err? ==>
              MetricsPartials(root) == Err(Collect(ChildMetrics(root), PlacementOf).error)
    ensures Collect(ChildMetrics(root), PlacementOf).Ok? && Collect(MetricComponents(root), MetricDataOf).Err? ==>
              MetricsPartials(root) == Err(Collect(MetricComponents(root), MetricDataOf).error)
    ensures Collect(ChildMetrics(root), PlacementOf).Ok? && Collect(MetricComponents(root), MetricDataOf).Ok? ==>
              (MetricsPartials(root).Ok?
               <==> forall comp | comp in CompToMetric(root) :: CompToMetric(root)[comp] in KeySet(MetricComponents(root), MetricIdOf))
    ensures Collect(ChildMetrics(root), PlacementOf).Ok? && MetricsPartials(root).Err? ==>
              Collect(MetricComponents(root), MetricDataOf).Err? || MetricsPartials(root).error == UndefinedMetric
  {
    if Collect(ChildMetrics(root), PlacementOf).Ok? && Collect(MetricComponents(root), MetricDataOf).Ok? {
      CollectedMetricIds(MetricComponents(root));
    }
  }

  /** Once both mining loops succeed, the pass is the join of what they mined. */
  lemma MetricsPartialsJoin(root: Element, ps: seq<Placement>, ds: seq<MetricData>)
    requires Collect(ChildMetrics(root), PlacementOf) == Ok(ps) && Collect(MetricComponents(root), MetricDataOf) == Ok(ds)
    ensures MetricsPartials(root)
            == Join(CompToMetric(root), TableBy(ps, PlacedId, RotationOf), TableBy(ps, PlacedId, TranslationOf), Tabulate(ds))
  {
  }

  // ---------------------------------------------------------------- the mining loops

  /** `for cad_comp in root.iter('CADComponent'): comp_to_metric[...] = ...`. */
  method MineCompToMetric(cads: seq<Element>) returns (compToMetric: map<ComponentId, MetricId>)
    ensures compToMetric == TableBy(cads, InstanceIdOf, MetricIdOf)
  {
    compToMetric := map[];
    for i := 0 to |cads|
      invariant compToMetric == TableBy(cads[..i], InstanceIdOf, MetricIdOf)
    {
      TableBySnoc(cads[..i], cads[i], InstanceIdOf, MetricIdOf);
      assert cads[..i + 1] == cads[..i] + [cads[i]];
      compToMetric := compToMetric[Get(cads[i], "ComponentInstanceID") := Get(cads[i], "MetricID")];
    }
    assert cads[..|cads|] == cads;
  }

  /** One ChildMetric iteration, the rotation read by the cell-by-cell extraction loop. */
  method ReadPlacement(child: Element) returns (r: Outcome<Placement>)
    ensures r == PlacementOf(child)
  {
    var comp := Get(child, "ComponentInstanceID");
    var rm := Find(child, [Child("RotationMatrix")]);
    if rm.None? {
      return Err(MissingElement("RotationMatrix"));
    }
    var rotation := ExtractMatrix(rm.value, None);
    if rotation.Err? {
      return Err(rotation.error);
    }
    var tr := Find(child, [Child("Translation")]);
    if tr.None? {
      return Err(MissingElement("Translation"));
    }
    var translation := XyzVector(tr.value);
    if translation.Err? {
      return Err(translation.error);
    }
    return Ok(Placement(comp, rotation.value, translation.value));
  }

  /**
   * The ChildMetric loop: the rotation and translation dicts, or the
   * exception of the first ChildMetric that cannot be read.
   */
  method MinePlacements(cs: seq<Element>)
    returns (r: Outcome<(map<ComponentId, Grid>, map<ComponentId, seq<Num>>)>)
    ensures r.Ok? <==> Collect(cs, PlacementOf).Ok?
    ensures r.Ok? ==> r.value.0 == TableBy(Collect(cs, PlacementOf).value, PlacedId, RotationOf)
                      && r.value.1 == TableBy(Collect(cs, PlacementOf).value, PlacedId, TranslationOf)
    ensures r.Err? ==> r.error == Collect(cs, PlacementOf).error
  {
    var rotation: map<ComponentId, Grid> := map[];
    var translation: map<ComponentId, seq<Num>> := map[];
    assert cs[..0] == [];
    for i := 0 to |cs|
      invariant Collect(cs[..i], PlacementOf).Ok?
      invariant rotation == TableBy(Collect(cs[..i], PlacementOf).value, PlacedId, RotationOf)
      invariant translation == TableBy(Collect(cs[..i], PlacementOf).value, PlacedId, TranslationOf)
    {
      var p := ReadPlacement(cs[i]);
      if p.Err? {
        CollectFirstErr(cs, PlacementOf, i);
        return Err(p.error);
      }
      CollectStep(cs, PlacementOf, i);
      TableBySnoc(Collect(cs[..i], PlacementOf).value, p.value, PlacedId, RotationOf);
      TableBySnoc(Collect(cs[..i], PlacementOf).value, p.value, PlacedId, TranslationOf);
      rotation := rotation[p.value.comp := p.value.rotation];
      translation := translation[p.value.comp := p.value.translation];
    }
    assert cs[..|cs|] == cs;
    return Ok((rotation, translation));
  }

  /** The bounding box, its outline points collected by the `bbox_pts.append` loop. */
  method ReadBox(bbox: Element) returns (r: Outcome<Value>)
    ensures r == ReadBoundingBox(bbox)
  {
    var pts := FindAll(bbox, [Child("OutlinePoints"), Child("Point")]);
    var outline: Grid := [];
    for i := 0 to |pts|
      invariant Collect(pts[..i], XyzVector) == Ok(outline)
    {
      var v := XyzVector(pts[i]);
      if v.Err? {
        CollectFirstErr(pts, XyzVector, i);
        return Err(v.error);
      }
      CollectStep(pts, XyzVector, i);
      outline := outline + [v.value];
    }
    assert pts[..|pts|] == pts;
    var corner := XyzVector(bbox);
    if corner.Err? {
      return Err(corner.error);
    }
    return Ok(Dict(map["bounding_box" := Vector(corner.value), "outline_points" := Matrix(outline)]));
  }

  /** An inertia tensor when found, read by the extraction loop. */
  method ReadTensor(found: Option<Element>) returns (r: Outcome<Option<Grid>>)
    ensures r == ReadInertia(found)
  {
    if found.None? {
      return Ok(None);
    }
    var g := ExtractMatrix(found.value, None);
    if g.Err? {
      return Err(g.error);
    }
    return Ok(Some(g.value));
  }

  /** The principal moments block when found, both grids read by the extraction loop. */
  method ReadPrincipleBlock(found: Option<Element>) returns (r: Outcome<Option<Value>>)
    ensures r == ReadPrinciple(found)
  {
    if found.None? {
      return Ok(None);
    }
    var rm := Find(found.value, [Child("RotationMatrix")]);
    if rm.None? {
      return Err(MissingElement("RotationMatrix"));
    }
    var rotation := ExtractMatrix(rm.value, None);
    if rotation.Err? {
      return Err(rotation.error);
    }
    var moments := ExtractMatrix(found.value, Some((3, 1)));
    if moments.Err? {
      return Err(moments.error);
    }
    return Ok(Some(Dict(map["rotation_matrix" := Matrix(rotation.value), "principle_moments" := Matrix(moments.value)])));
  }

  /** One MetricComponent iteration. */
  method ReadMetricComponent(mc: Element) returns (r: Outcome<MetricData>)
    ensures r == MetricDataOf(mc)
  {
    var bbox := Find(mc, [Child("BoundingBox")]);
    if bbox.None? {
      return Err(MissingElement("BoundingBox"));
    }
    var box := ReadBox(bbox.value);
    if box.Err? {
      return Err(box.error);
    }
    var cog := ReadCog(FindCg(mc));
    if cog.Err? {
      return Err(cog.error);
    }
    var atDefault := ReadTensor(FindInertiaAtDefault(mc));
    if atDefault.Err? {
      return Err(atDefault.error);
    }
    var atCog := ReadTensor(FindInertiaAtCog(mc));
    if atCog.Err? {
      return Err(atCog.error);
    }
    var principle := ReadPrincipleBlock(FindPrinciple(mc));
    if principle.Err? {
      return Err(principle.error);
    }
    var area := GetScalar(mc, "SurfaceArea");
    if area.Err? {
      return Err(area.error);
    }
    var volume := GetScalar(mc, "Volume");
    if volume.Err? {
      return Err(volume.error);
    }
    var mass := GetScalar(mc, "Mass");
    if mass.Err? {
      return Err(mass.error);
    }
    var units := Find(mc, [Child("Units")]);
    if units.None? {
      return Err(MissingElement("Units"));
    }
    return Ok(MetricData(Get(mc, "MetricID"), Get(mc, "CoordinateSystem"), Get(mc, "Name"), box.value, cog.value,
                         atDefault.value, atCog.value, principle.value, area.value, volume.value, mass.value,
                         ReadUnits(units.value)));
  }

  /** How one more MetricComponent changes each per-MetricID dict. */
  lemma TabulateSnoc(ds: seq<MetricData>, d: MetricData)
    ensures Tabulate(ds + [d]).csys == Tabulate(ds).csys[d.met := d.csys]
    ensures Tabulate(ds + [d]).generatedName == Tabulate(ds).generatedName[d.met := d.generatedName]
    ensures Tabulate(ds + [d]).boundingBox == Tabulate(ds).boundingBox[d.met := d.boundingBox]
    ensures Tabulate(ds + [d]).cog == if d.cog.Some? then Tabulate(ds).cog[d.met := d.cog.value] else Tabulate(ds).cog
    ensures Tabulate(ds + [d]).inertiaAtDefault
            == if d.inertiaAtDefault.Some? then Tabulate(ds).inertiaAtDefault[d.met := d.inertiaAtDefault.value]
               else Tabulate(ds).inertiaAtDefault
    ensures Tabulate(ds + [d]).inertiaAtCog
            == if d.inertiaAtCog.Some? then Tabulate(ds).inertiaAtCog[d.met := d.inertiaAtCog.value]
               else Tabulate(ds).inertiaAtCog
    ensures Tabulate(ds + [d]).principle
            == if d.principle.Some? then Tabulate(ds).principle[d.met := d.principle.value] else Tabulate(ds).principle
    ensures Tabulate(ds + [d]).surfaceArea == Tabulate(ds).surfaceArea[d.met := d.surfaceArea]
    ensures Tabulate(ds + [d]).volume == Tabulate(ds).volume[d.met := d.volume]
    ensures Tabulate(ds + [d]).mass == Tabulate(ds).mass[d.met := d.mass]
    ensures Tabulate(ds + [d]).units == Tabulate(ds).units[d.met := d.units]
  {
    assert (ds + [d])[..|ds|] == ds;
  }

  /**
   * The MetricComponent loop: the per-MetricID dicts, or the exception of
   * the first MetricComponent that cannot be read.
   */
  method MineMetricComponents(mcs: seq<Element>) returns (r: Outcome<MetricTables>)
    ensures r.Ok? <==> Collect(mcs, MetricDataOf).Ok?
    ensures r.Ok? ==> r.value == Tabulate(Collect(mcs, MetricDataOf).value)
    ensures r.Err? ==> r.error == Collect(mcs, MetricDataOf).error
  {
    var t := Tabulate([]);
    assert mcs[..0] == [];
    for i := 0 to |mcs|
      invariant Collect(mcs[..i], MetricDataOf).Ok?
      invariant t == Tabulate(Collect(mcs[..i], MetricDataOf).value)
    {
      var read := ReadMetricComponent(mcs[i]);
      if read.Err? {
        CollectFirstErr(mcs, MetricDataOf, i);
        return Err(read.error);
      }
      var d := read.value;
      CollectStep(mcs, MetricDataOf, i);
      TabulateSnoc(Collect(mcs[..i], MetricDataOf).value, d);
      var met := d.met;
      t := t.(csys := t.csys[met := d.csys]);
      t := t.(generatedName := t.generatedName[met := d.generatedName]);
      t := t.(boundingBox := t.boundingBox[met := d.boundingBox]);
      if d.cog.Some? {
        t := t.(cog := t.cog[met := d.cog.value]);
      }
      if d.inertiaAtDefault.Some? {
        t := t.(inertiaAtDefault := t.inertiaAtDefault[met := d.inertiaAtDefault.value]);
      }
      if d.inertiaAtCog.Some? {
        t := t.(inertiaAtCog := t.inertiaAtCog[met := d.inertiaAtCog.value]);
      }
      if d.principle.Some? {
        t := t.(principle := t.principle[met := d.principle.value]);
      }
      t := t.(surfaceArea := t.surfaceArea[met := d.surfaceArea]);
      t := t.(volume := t.volume[met := d.volume]);
      t := t.(mass := t.mass[met := d.mass]);
      t := t.(units := t.units[met := d.units]);
    }
    assert mcs[..|mcs|] == mcs;
    return Ok(t);
  }

  /** The three mining loops of the metrics pass, in the source's order, before the record loop. */
  method MineMetrics(root: Element)
    returns (r: Outcome<(map<ComponentId, MetricId>, map<ComponentId, Grid>, map<ComponentId, seq<Num>>, MetricTables)>)
    ensures r.Err? ==> MetricsPartials(root) == Err(r.error)
    ensures r.Ok? ==> Consistent(r.value.3)
                      && MetricsPartials(root) == Join(r.value.0, r.value.1, r.value.2, r.value.3)
  {
    var compToMetric := MineCompToMetric(CadComponents(root));
    var placed := MinePlacements(ChildMetrics(root));
    if placed.Err? {
      return Err(placed.error);
    }
    var mined := MineMetricComponents(MetricComponents(root));
    if mined.Err? {
      return Err(mined.error);
    }
    MetricsPartialsJoin(root, Collect(ChildMetrics(root), PlacementOf).value, Collect(MetricComponents(root), MetricDataOf).value);
    return Ok((compToMetric, placed.value.0, placed.value.1, mined.value));
  }
}
