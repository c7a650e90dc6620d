/**
 * `CyPhy2CADReader` and `CyPhy2CADData`: the reader remembers an output
 * directory and, on `parse`, installs a fresh data object and runs the three
 * passes over CADAssembly.xml, CADAssembly_metrics.xml and ComputedValues.xml
 * in that order, each storing its document and merging its records into the
 * shared `components` dict.
 */
module Reader {
  import opened Wrappers
  import opened Xml
  import opened Tables
  import opened Numbers
  import opened Records
  import opened AssemblyPass
  import opened MetricsPass
  import opened ComputedValuesPass

  // ---------------------------------------------------------------- the file system

  /** What a file on disk holds, as `xml.etree.ElementTree.parse` sees it. */
  datatype FileContent = Parsed(root: Element) | NotXml

  /** The files the reader can open, by path. */
  type FileSystem = map<string, FileContent>

  const AssemblyFile: string := "CADAssembly.xml"
  const MetricsFile: string := "CADAssembly_metrics.xml"
  const ComputedValuesFile: string := "ComputedValues.xml"

  /** `os.path.join(dir, name)` on POSIX: an absolute `name` wins, else one '/' separates the two. */
  function JoinPath(dir: string, name: string): (p: string)
    ensures |p| >= |name| && p[|p| - |name|..] == name
    ensures name != [] && name[0] == '/' ==> p == name
    ensures (name == [] || name[0] != '/') ==>
              p[..|p| - |name|] == dir || p[..|p| - |name|] == dir + "/"
  {
    if name != [] && name[0] == '/' then name
    else if dir == [] || dir[|dir| - 1] == '/' then dir + name
    else dir + "/" + name
  }

  /** `et.parse(path).getroot()`: the document's root, IOError or ParseError. */
  function LoadXml(fs: FileSystem, path: string): (r: Outcome<Element>)
    ensures r.Ok? <==> path in fs && fs[path].Parsed?
    ensures r.Ok? ==> r.value == fs[path].root
    ensures path !in fs ==> r == Err(MissingFile(path))
    ensures path in fs && fs[path].NotXml? ==> r == Err(MalformedXml(path))
  {
    if path !in fs then Err(MissingFile(path))
    else if fs[path].NotXml? then Err(MalformedXml(path))
    else Ok(fs[path].root)
  }

  /** `if not dir: dir = fallback`: None and the empty string both fall back. */
  function ChooseDir(dir: Option<string>, fallback: string): (d: string)
    ensures dir.Some? && dir.value != "" ==> d == dir.value
    ensures dir.None? || dir.value == "" ==> d == fallback
  {
    if dir.None? || dir.value == "" then fallback else dir.value
  }

  // ---------------------------------------------------------------- the whole parse, as a function

  /** The three documents and the merged components a successful parse leaves behind. */
  datatype ParseResult = ParseResult(assembly: Element, metrics: Element, computedValues: Element, components: Components)

  /**
   * `parse(dir)` from a fresh data object: each document is opened only after
   * the previous pass has finished, and the first failure aborts the parse.
   */
  function ParseAll(fs: FileSystem, dir: string): (r: Outcome<ParseResult>)
    ensures r.Ok? ==> Assembled(r.value)
  {
    var assembly :- LoadXml(fs, JoinPath(dir, AssemblyFile));
    var metrics :- LoadXml(fs, JoinPath(dir, MetricsFile));
    var metricRecords :- MetricsPartials(metrics);
    var computed :- LoadXml(fs, JoinPath(dir, ComputedValuesFile));
    var pointRecords :- ComputedPartials(computed);
    Ok(ParseResult(assembly, metrics, computed, Combine(AssemblyPartials(assembly), metricRecords, pointRecords)))
  }

  /** The documents a parse reads, and how it fails when one cannot be read or mined. */
  lemma ParseAllOutcome(fs: FileSystem, dir: string)
    ensures LoadXml(fs, JoinPath(dir, AssemblyFile)).Err? ==>
              ParseAll(fs, dir) == Err(LoadXml(fs, JoinPath(dir, AssemblyFile)).error)
    ensures ParseAll(fs, dir).Ok? <==>
              LoadXml(fs, JoinPath(dir, AssemblyFile)).Ok?
              && LoadXml(fs, JoinPath(dir, MetricsFile)).Ok?
              && MetricsPartials(LoadXml(fs, JoinPath(dir, MetricsFile)).value).Ok?
              && LoadXml(fs, JoinPath(dir, ComputedValuesFile)).Ok?
              && ComputedPartials(LoadXml(fs, JoinPath(dir, ComputedValuesFile)).value).Ok?
    ensures ParseAll(fs, dir).Ok? ==>
              var p := ParseAll(fs, dir).value;
              Parsed(p.assembly) == fs[JoinPath(dir, AssemblyFile)]
              && Parsed(p.metrics) == fs[JoinPath(dir, MetricsFile)]
              && Parsed(p.computedValues) == fs[JoinPath(dir, ComputedValuesFile)]
  {
  }

  /** The components of a parse result are the three passes' records, merged in order. */
  predicate Assembled(p: ParseResult)
  {
    MetricsPartials(p.metrics).Ok? && ComputedPartials(p.computedValues).Ok?
    && p.components == Combine(AssemblyPartials(p.assembly), MetricsPartials(p.metrics).value,
                               ComputedPartials(p.computedValues).value)
  }

  /** The assembly pass writes a record for every ComponentID of a CADComponent, at any depth. */
  lemma AssemblyIds(root: Element, comp: ComponentId)
    ensures comp in AssemblyPartials(root) <==> exists e <- Iter(root, "CADComponent") :: Get(e, "ComponentID") == comp
  {
    var es := Iter(root, "CADComponent");
    KeySetMember(es, ComponentIdOf, comp);
    assert (exists e <- es :: Get(e, "ComponentID") == comp) <==> exists i | 0 <= i < |es| :: ComponentIdOf(es[i]) == comp;
  }

  /** The metrics pass writes a record for every ComponentInstanceID of a CADComponent, at any depth. */
  lemma MetricIds(root: Element, comp: ComponentId)
    requires MetricsPartials(root).Ok?
    ensures comp in MetricsPartials(root).value <==>
              exists e <- Iter(root, "CADComponent") :: Get(e, "ComponentInstanceID") == comp
  {
    var es := Iter(root, "CADComponent");
    KeySetMember(es, InstanceIdOf, comp);
    assert (exists e <- es :: Get(e, "ComponentInstanceID") == comp) <==> exists i | 0 <= i < |es| :: InstanceIdOf(es[i]) == comp;
  }

  /** The computed-values pass writes a record for every Component ID that has a point. */
  lemma ComputedIds(root: Element, comp: ComponentId)
    requires ComputedPartials(root).Ok?
    ensures comp in ComputedPartials(root).value <==> exists e <- Iter(root, "Component") :: Contributes(e, comp)
  {
    var cs := Iter(root, "Component");
    ComputedPointsRule(root, comp);
    assert (exists e <- cs :: Contributes(e, comp)) <==> exists i | 0 <= i < |cs| :: Contributes(cs[i], comp);
  }

  /**
   * The component IDs after a parse are the union of three ID sets: the
   * ComponentIDs of CADAssembly.xml's CADComponents, the ComponentInstanceIDs
   * of CADAssembly_metrics.xml's CADComponents, and the ComponentInstanceIDs
   * of ComputedValues.xml's Components that carry at least one point.
   */
  lemma ParsedComponentIds(p: ParseResult, comp: ComponentId)
    requires Assembled(p)
    ensures comp in p.components <==>
              (exists e <- Iter(p.assembly, "CADComponent") :: Get(e, "ComponentID") == comp)
              || (exists e <- Iter(p.metrics, "CADComponent") :: Get(e, "ComponentInstanceID") == comp)
              || (exists e <- Iter(p.computedValues, "Component") :: Contributes(e, comp))
  {
    AssemblyIds(p.assembly, comp);
    MetricIds(p.metrics, comp);
    ComputedIds(p.computedValues, comp);
  }

  /**
   * Every pass owns its fields: after the parse a field of a component's
   * record is present iff one of the passes wrote it for that component, and
   * holds the value the owning pass wrote, so no later pass clobbers an
   * earlier one's fields.
   */
  lemma ParsedField(p: ParseResult, comp: ComponentId, f: Field)
    requires Assembled(p) && comp in p.components
    ensures f in p.components[comp] <==>
              f in Lookup(AssemblyPartials(p.assembly), comp)
              || f in Lookup(MetricsPartials(p.metrics).value, comp)
              || f in Lookup(ComputedPartials(p.computedValues).value, comp)
    ensures f in Lookup(AssemblyPartials(p.assembly), comp) ==>
              WriterOf(f) == AssemblyWriter && f in p.components[comp]
              && p.components[comp][f] == AssemblyPartials(p.assembly)[comp][f]
    ensures f in Lookup(MetricsPartials(p.metrics).value, comp) ==>
              WriterOf(f) == MetricsWriter && f in p.components[comp]
              && p.components[comp][f] == MetricsPartials(p.metrics).value[comp][f]
    ensures f in Lookup(ComputedPartials(p.computedValues).value, comp) ==>
              WriterOf(f) == PointsWriter && f in p.components[comp]
              && p.components[comp][f] == ComputedPartials(p.computedValues).value[comp][f]
  {
    var a := AssemblyPartials(p.assembly);
    var m := MetricsPartials(p.metrics).value;
    var c := ComputedPartials(p.computedValues).value;
    AssemblyWritten(p.assembly);
    MetricsWritten(p.metrics);
    ComputedWritten(p.computedValues);
    if f in Lookup(a, comp) {
      WrittenField(a, AssemblyWriter, comp, f);
    }
    if f in Lookup(m, comp) {
      WrittenField(m, MetricsWriter, comp, f);
    }
    if f in Lookup(c, comp) {
      WrittenField(c, PointsWriter, comp, f);
    }
    CombineField(AssemblyPartials(p.assembly), MetricsPartials(p.metrics).value,
                 ComputedPartials(p.computedValues).value, comp, f);
  }

  /** The assembly pass writes only its three fields. */
  lemma AssemblyWritten(root: Element)
    ensures WrittenBy(AssemblyPartials(root), AssemblyWriter)
  {
    var a := AssemblyPartials(root);
    assert forall g <- AssemblyKeys :: WriterOf(g) == AssemblyWriter;
    forall k <- a.Keys
      ensures forall g <- a[k].Keys :: WriterOf(g) == AssemblyWriter
    {
      assert a[k].Keys == AssemblyKeys;
    }
  }

  /** The metrics pass writes only its twelve fields. */
  lemma MetricsWritten(root: Element)
    requires MetricsPartials(root).Ok?
    ensures WrittenBy(MetricsPartials(root).value, MetricsWriter)
  {
    var ps := Collect(ChildMetrics(root), PlacementOf).value;
    var ds := Collect(MetricComponents(root), MetricDataOf).value;
    JoinWritten(CompToMetric(root), TableBy(ps, PlacedId, RotationOf), TableBy(ps, PlacedId, TranslationOf), Tabulate(ds));
  }

  /** The computed-values pass writes only `points`. */
  lemma ComputedWritten(root: Element)
    requires ComputedPartials(root).Ok?
    ensures WrittenBy(ComputedPartials(root).value, PointsWriter)
  {
  }

  // ---------------------------------------------------------------- CyPhy2CADData

  /** `CyPhy2CADData`: the raw documents and the `components` defaultdict. */
  class CadData {
    var cadassembly: Option<Element>
    var cadassemblyMetrics: Option<Element>
    var computedValues: Option<Element>
    var components: Components

    /** No documents yet, and no components. */
    constructor()
      ensures cadassembly.None? && cadassemblyMetrics.None? && computedValues.None?
      ensures components == map[]
    {
      cadassembly := None;
      cadassemblyMetrics := None;
      computedValues := None;
      components := map[];
    }

    /**
     * The record loop of a pass: `components[comp].update(record)` for every
     * record the pass built, in the dict's iteration order. Updates of
     * different components commute, so the order does not matter.
     */
    method MergeRecords(records: Components)
      modifies this
      ensures components == Merge(old(components), records)
      ensures cadassembly == old(cadassembly) && cadassemblyMetrics == old(cadassemblyMetrics)
      ensures computedValues == old(computedValues)
    {
      ghost var c0 := components;
      var todo := records.Keys;
      ghost var done: set<ComponentId> := {};
      while todo != {}
        invariant todo <= records.Keys && done == records.Keys - todo
        invariant components == Merge(c0, Restrict(records, done))
        invariant cadassembly == old(cadassembly) && cadassemblyMetrics == old(cadassemblyMetrics)
        invariant computedValues == old(computedValues)
        decreases todo
      {
        var comp :| comp in todo;
        MergeStepWith(c0, records, done, comp, components, records[comp]);
        components := Update(components, comp, records[comp]);
        MoveOne(records.Keys, todo, done, comp);
        todo := todo - {comp};
        done := done + {comp};
      }
      RestrictCovering(records, done);
    }

    /**
     * A record loop whose body may raise KeyError: `build(comp)` is the
     * record the body makes for `comp`, or None where a lookup in it fails.
     * The loop stops at the first failure, after the records of the
     * components visited before it were merged.
     */
    method MergeBuilt(ids: set<ComponentId>, build: ComponentId -> Option<Record>) returns (r: Outcome<()>)
      modifies this
      ensures r.Ok? <==> forall id <- ids :: build(id).Some?
      ensures r.Ok? ==> components == Merge(old(components), Built(ids, build))
      ensures r.Err? ==> r.error == UndefinedMetric
      ensures cadassembly == old(cadassembly) && cadassemblyMetrics == old(cadassemblyMetrics)
      ensures computedValues == old(computedValues)
    {
      ghost var c0 := components;
      ghost var records := Built(ids, build);
      var todo := ids;
      ghost var done: set<ComponentId> := {};
      while todo != {}
        invariant todo <= ids && done == ids - todo
        invariant forall id <- done :: build(id).Some?
        invariant components == Merge(c0, Restrict(records, done))
        invariant cadassembly == old(cadassembly) && cadassemblyMetrics == old(cadassemblyMetrics)
        invariant computedValues == old(computedValues)
        decreases todo
      {
        var comp :| comp in todo;
        var componentData := build(comp);
        if componentData.None? {
          return Err(UndefinedMetric);
        }
        MergeStepWith(c0, records, done, comp, components, componentData.value);
        components := Update(components, comp, componentData.value);
        MoveOne(ids, todo, done, comp);
        todo := todo - {comp};
        done := done + {comp};
      }
      RestrictCovering(records, done);
      return Ok(());
    }

    /**
     * The record loop of the metrics pass: each component instance's record
     * joins its placement with its MetricID's data. A MetricID no
     * MetricComponent defines raises KeyError in the middle of the loop.
     */
    method RecordMetrics(compToMetric: map<ComponentId, MetricId>, rotation: map<ComponentId, Grid>,
                         translation: map<ComponentId, seq<Num>>, t: MetricTables) returns (r: Outcome<()>)
      requires Consistent(t)
      modifies this
      ensures r.Ok? <==> Join(compToMetric, rotation, translation, t).Ok?
      ensures r.Ok? ==> components == Merge(old(components), Join(compToMetric, rotation, translation, t).value)
      ensures r.Err? ==> r.error == UndefinedMetric
      ensures cadassembly == old(cadassembly) && cadassemblyMetrics == old(cadassemblyMetrics)
      ensures computedValues == old(computedValues)
    {
      JoinIsBuilt(compToMetric, rotation, translation, t);
      r := MergeBuilt(compToMetric.Keys, RecordFor(compToMetric, rotation, translation, t));
    }

    /** The `data` property: a dict with the single key `components`. */
    function Data(): (d: map<string, Components>)
      reads this
      ensures d.Keys == {"components"} && d["components"] == components
    {
      map["components" := components]
    }
  }

  // ---------------------------------------------------------------- CyPhy2CADReader

  /** `CyPhy2CADReader`: the output directory, and the data of the last parse (None before the first). */
  class CadReader {
    var outputDir: string
    var cadData: CadData?

    /** `CyPhy2CADReader(dir)` with `parse=False`: the directory falls back to the working directory `cwd`. */
    constructor(dir: Option<string>, cwd: string)
      ensures outputDir == ChooseDir(dir, cwd)
      ensures cadData == null
    {
      outputDir := ChooseDir(dir, cwd);
      cadData := null;
    }

    /**
     * `CyPhy2CADReader(dir, parse)`: with `parse=True` the constructor parses
     * the chosen directory at once, and a failing parse escapes from it.
     */
    static method Create(dir: Option<string>, cwd: string, parse: bool, fs: FileSystem) returns (r: Outcome<CadReader>)
      ensures !parse ==> r.Ok? && fresh(r.value) && r.value.cadData == null
      ensures parse ==> (r.Ok? <==> ParseAll(fs, ChooseDir(dir, cwd)).Ok?)
      ensures parse && r.Ok? ==> fresh(r.value) && r.value.cadData != null && fresh(r.value.cadData)
                                 && var p := ParseAll(fs, ChooseDir(dir, cwd)).value;
                                    r.value.cadData.cadassembly == Some(p.assembly)
                                    && r.value.cadData.cadassemblyMetrics == Some(p.metrics)
                                    && r.value.cadData.computedValues == Some(p.computedValues)
                                    && r.value.cadData.components == p.components
      ensures parse && r.Err? ==> r.error == ParseAll(fs, ChooseDir(dir, cwd)).error
      ensures r.Ok? ==> r.value.outputDir == ChooseDir(dir, cwd)
    {
      var reader := new CadReader(dir, cwd);
      if parse {
        var parsed := reader.Parse(Some(reader.outputDir), fs);
        if parsed.Err? {
          return Err(parsed.error);
        }
      }
      return Ok(reader);
    }

    /**
     * `parse(dir)`: installs a fresh data object, runs the three passes over
     * the chosen directory (the stored one when `dir` is None or empty) and
     * returns the data object. A failing pass raises; the fresh data object
     * stays installed with whatever the passes before it wrote.
     */
    method Parse(dir: Option<string>, fs: FileSystem) returns (r: Outcome<CadData>)
      modifies this
      ensures outputDir == old(outputDir)
      ensures cadData != null && fresh(cadData)
      ensures r.Ok? <==> ParseAll(fs, ChooseDir(dir, outputDir)).Ok?
      ensures r.Ok? ==> r.value == cadData
      ensures r.Ok? ==>
                var p := ParseAll(fs, ChooseDir(dir, outputDir)).value;
                cadData.cadassembly == Some(p.assembly) && cadData.cadassemblyMetrics == Some(p.metrics)
                && cadData.computedValues == Some(p.computedValues) && cadData.components == p.components
      ensures r.Err? ==> r.error == ParseAll(fs, ChooseDir(dir, outputDir)).error
    {
      var path := ChooseDir(dir, outputDir);
      cadData := new CadData();
      var status := ParseCadAssembly(path, fs);
      if status.Err? {
        return Err(status.error);
      }
      status := ParseMetrics(path, fs);
      if status.Err? {
        return Err(status.error);
      }
      status := ParseComputedValues(path, fs);
      if status.Err? {
        return Err(status.error);
      }
      return Ok(cadData);
    }

    /**
     * `_parse_cadassembly_xml`: stores the document and merges the assembly
     * records into `components`; only a missing or malformed file fails.
     */
    method ParseCadAssembly(path: string, fs: FileSystem) returns (r: Outcome<()>)
      requires cadData != null
      modifies cadData
      ensures LoadXml(fs, JoinPath(path, AssemblyFile)).Err? ==>
                r == Err(LoadXml(fs, JoinPath(path, AssemblyFile)).error) && unchanged(cadData)
      ensures LoadXml(fs, JoinPath(path, AssemblyFile)).Ok? ==>
                r.Ok? && cadData.cadassembly == Some(LoadXml(fs, JoinPath(path, AssemblyFile)).value)
                && cadData.components
                   == Merge(old(cadData.components), AssemblyPartials(LoadXml(fs, JoinPath(path, AssemblyFile)).value))
                && cadData.cadassemblyMetrics == old(cadData.cadassemblyMetrics)
                && cadData.computedValues == old(cadData.computedValues)
    {
      var doc := LoadXml(fs, JoinPath(path, AssemblyFile));
      if doc.Err? {
        return Err(doc.error);
      }
      cadData.cadassembly := Some(doc.value);
      AssemblyOfRoot(doc.value);
      return Ok(());
    }

    /** The mining loop and the record loop of the assembly pass, over a parsed document. */
    method AssemblyOfRoot(root: Element)
      requires cadData != null
      modifies cadData
      ensures cadData.components == Merge(old(cadData.components), AssemblyPartials(root))
      ensures cadData.cadassembly == old(cadData.cadassembly) && cadData.cadassemblyMetrics == old(cadData.cadassemblyMetrics)
      ensures cadData.computedValues == old(cadData.computedValues)
    {
      var names, files, kinds := MineAssembly(Iter(root, "CADComponent"));
      var records := map comp | comp in names :: AssemblyRecord(names[comp], files[comp], kinds[comp]);
      assert records == AssemblyPartials(root);
      cadData.MergeRecords(records);
    }

    /**
     * `_parse_cadassembly_metrics_xml`: stores the document, mines it, and
     * merges one record per component instance. A ChildMetric or
     * MetricComponent that cannot be read fails before any record is
     * written; a MetricID without MetricComponent fails in the record loop.
     */
    method ParseMetrics(path: string, fs: FileSystem) returns (r: Outcome<()>)
      requires cadData != null
      modifies cadData
      ensures LoadXml(fs, JoinPath(path, MetricsFile)).Err? ==>
                r == Err(LoadXml(fs, JoinPath(path, MetricsFile)).error) && unchanged(cadData)
      ensures LoadXml(fs, JoinPath(path, MetricsFile)).Ok? ==>
                cadData.cadassemblyMetrics == Some(LoadXml(fs, JoinPath(path, MetricsFile)).value)
                && cadData.cadassembly == old(cadData.cadassembly)
                && cadData.computedValues == old(cadData.computedValues)
                && (r.Ok? <==> MetricsPartials(LoadXml(fs, JoinPath(path, MetricsFile)).value).Ok?)
                && (r.Ok? ==> cadData.components
                              == Merge(old(cadData.components), MetricsPartials(LoadXml(fs, JoinPath(path, MetricsFile)).value).value))
                && (r.Err? ==> r.error == MetricsPartials(LoadXml(fs, JoinPath(path, MetricsFile)).value).error)
                && (r.Err? && r.error != UndefinedMetric ==> cadData.components == old(cadData.components))
    {
      var doc := LoadXml(fs, JoinPath(path, MetricsFile));
      if doc.Err? {
        return Err(doc.error);
      }
      cadData.cadassemblyMetrics := Some(doc.value);
      r := MetricsOfRoot(doc.value);
    }

    /** The mining loops and the record loop of the metrics pass, over a parsed document. */
    method MetricsOfRoot(root: Element) returns (r: Outcome<()>)
      requires cadData != null
      modifies cadData
      ensures r.Ok? <==> MetricsPartials(root).Ok?
      ensures r.Ok? ==> cadData.components == Merge(old(cadData.components), MetricsPartials(root).value)
      ensures r.Err? ==> r.error == MetricsPartials(root).error
      ensures r.Err? && r.error != UndefinedMetric ==> cadData.components == old(cadData.components)
      ensures cadData.cadassembly == old(cadData.cadassembly) && cadData.cadassemblyMetrics == old(cadData.cadassemblyMetrics)
      ensures cadData.computedValues == old(cadData.computedValues)
    {
      var mined := MineMetrics(root);
      if mined.Err? {
        return Err(mined.error);
      }
      var (compToMetric, rotation, translation, t) := mined.value;
      r := cadData.RecordMetrics(compToMetric, rotation, translation, t);
    }

    /**
     * `_parse_computed_values_xml`: stores the document and gives every
     * component with points a `points` field; a Metric without MetricID or a
     * coordinate that is not a number fails before any record is written.
     */
    method ParseComputedValues(path: string, fs: FileSystem) returns (r: Outcome<()>)
      requires cadData != null
      modifies cadData
      ensures LoadXml(fs, JoinPath(path, ComputedValuesFile)).Err? ==>
                r == Err(LoadXml(fs, JoinPath(path, ComputedValuesFile)).error) && unchanged(cadData)
      ensures LoadXml(fs, JoinPath(path, ComputedValuesFile)).Ok? ==>
                cadData.computedValues == Some(LoadXml(fs, JoinPath(path, ComputedValuesFile)).value)
                && cadData.cadassembly == old(cadData.cadassembly)
                && cadData.cadassemblyMetrics == old(cadData.cadassemblyMetrics)
                && (r.Ok? <==> ComputedPartials(LoadXml(fs, JoinPath(path, ComputedValuesFile)).value).Ok?)
                && (r.Ok? ==> cadData.components
                              == Merge(old(cadData.components), ComputedPartials(LoadXml(fs, JoinPath(path, ComputedValuesFile)).value).value))
                && (r.Err? ==> r.error == ComputedPartials(LoadXml(fs, JoinPath(path, ComputedValuesFile)).value).error
                               && cadData.components == old(cadData.components))
    {
      var doc := LoadXml(fs, JoinPath(path, ComputedValuesFile));
      if doc.Err? {
        return Err(doc.error);
      }
      cadData.computedValues := Some(doc.value);
      r := PointsOfRoot(doc.value);
    }

    /** The mining loops and the record loop of the computed-values pass, over a parsed document. */
    method PointsOfRoot(root: Element) returns (r: Outcome<()>)
      requires cadData != null
      modifies cadData
      ensures r.Ok? <==> ComputedPartials(root).Ok?
      ensures r.Ok? ==> cadData.components == Merge(old(cadData.components), ComputedPartials(root).value)
      ensures r.Err? ==> r.error == ComputedPartials(root).error && cadData.components == old(cadData.components)
      ensures cadData.cadassembly == old(cadData.cadassembly) && cadData.cadassemblyMetrics == old(cadData.cadassemblyMetrics)
      ensures cadData.computedValues == old(cadData.computedValues)
    {
      var mined := MineComputedValues(ValueComponents(root));
      if mined.Err? {
        return Err(mined.error);
      }
      var compToPoints := mined.value;
      var records := map comp | comp in compToPoints :: map[Points := PointsValue(compToPoints[comp])];
      cadData.MergeRecords(records);
      return Ok(());
    }
  }
}
