/**
 * The consolidated per-component data: `CyPhy2CADData.components` is a
 * `defaultdict(dict)` from component ID to a dict of fields, and every pass
 * merges its partial records into it with `dict.update`.
 */
module Records {
  import opened Wrappers
  import opened Numbers

  type Grid = seq<seq<Num>>

  /** The field values the reader stores: None, strings, numbers, numpy vectors and matrices, nested dicts. */
  datatype Value =
    | Null
    | Text(text: string)
    | Number(num: Num)
    | Vector(items: seq<Num>)
    | Matrix(rows: Grid)
    | Dict(entries: map<string, Value>)

  /** An attribute value as stored: the string, or None when the attribute is missing. */
  function OptText(a: Option<string>): Value
  {
    if a.Some? then Text(a.value) else Null
  }

  /** The keys the passes write into a component's dict, one constructor per key. */
  datatype Field =
    | ComponentName | CadFilenameOriginal | CadType
    | MetricId | Rotation | Translation | CoordinateSystem | CadFilenameGenerated | BoundingBox
    | CenterOfGravity | Inertia | SurfaceArea | Volume | Mass | Units
    | Points
  {
    /** The key as the source spells it. */
    function Name(): string
    {
      match this
      case ComponentName => "component_name"
      case CadFilenameOriginal => "cad_filename_original"
      case CadType => "cad_type"
      case MetricId => "metric_id"
      case Rotation => "rotation"
      case Translation => "translation"
      case CoordinateSystem => "coordinate_system"
      case CadFilenameGenerated => "cad_filename_generated"
      case BoundingBox => "bounding_box"
      case CenterOfGravity => "center_of_gravity"
      case Inertia => "inertia"
      case SurfaceArea => "surface_area"
      case Volume => "volume"
      case Mass => "mass"
      case Units => "units"
      case Points => "points"
    }
  }

  /** One component's dict of fields. */
  type Record = map<Field, Value>

  /** Component IDs and metric IDs are attribute values, and so may be None. */
  type ComponentId = Option<string>
  type MetricId = Option<string>

  type Components = map<ComponentId, Record>

  /** `components[id]` on the defaultdict: the record, or a fresh empty dict. */
  function Lookup(c: Components, id: ComponentId): Record
  {
    if id in c then c[id] else map[]
  }

  /** `components[id].update(partial)`. */
  function Update(c: Components, id: ComponentId, partial: Record): (r: Components)
    ensures r.Keys == c.Keys + {id}
    ensures r[id].Keys == Lookup(c, id).Keys + partial.Keys
    ensures forall f <- partial.Keys :: r[id][f] == partial[f]
    ensures forall f <- Lookup(c, id).Keys :: f !in partial ==> r[id][f] == Lookup(c, id)[f]
    ensures forall k <- c.Keys :: k != id ==> r[k] == c[k]
  {
    c[id := Lookup(c, id) + partial]
  }

  /** A whole pass: every partial record of `p` merged into `c`, one `update` per component. */
  function Merge(c: Components, p: Components): (r: Components)
    ensures r.Keys == c.Keys + p.Keys
  {
    map id | id in c.Keys + p.Keys :: if id in p then Lookup(c, id) + p[id] else c[id]
  }

  function Restrict(p: Components, ids: set<ComponentId>): (r: Components)
    ensures r.Keys == p.Keys * ids
  {
    map id | id in p && id in ids :: p[id]
  }

  /**
   * A merge only adds or overwrites the fields its partial records carry:
   * any other field of a component keeps its value, and no field is removed.
   */
  lemma MergeKeepsOtherFields(c: Components, p: Components, owned: set<Field>, id: ComponentId)
    requires forall k <- p.Keys :: p[k].Keys <= owned
    ensures id in Merge(c, p)
            <==> id in c || id in p
    ensures id in Merge(c, p) ==>
              Merge(c, p)[id].Keys == Lookup(c, id).Keys + Lookup(p, id).Keys
    ensures id in Merge(c, p) ==>
              (forall f <- Lookup(p, id).Keys :: Merge(c, p)[id][f] == p[id][f])
              && (forall f <- Lookup(c, id).Keys :: f !in owned ==> Merge(c, p)[id][f] == c[id][f])
  {
  }

  /** One loop step of a pass: merging the record `rec` of `id` extends the merged prefix by `id`. */
  lemma MergeStepWith(c: Components, p: Components, done: set<ComponentId>, id: ComponentId,
                      current: Components, rec: Record)
    requires id in p && id !in done && p[id] == rec
    requires current == Merge(c, Restrict(p, done))
    ensures Update(current, id, rec) == Merge(c, Restrict(p, done + {id}))
  {
    MergeStep(c, p, done, id);
  }

  /** Merging one more component: how the update loops of the passes advance. */
  lemma MergeStep(c: Components, p: Components, done: set<ComponentId>, id: ComponentId)
    requires id in p && id !in done
    ensures Merge(c, Restrict(p, done + {id})) == Update(Merge(c, Restrict(p, done)), id, p[id])
  {
    assert Restrict(p, done + {id}) == Restrict(p, done)[id := p[id]];
    MergeInsert(c, Restrict(p, done), id, p[id]);
  }

  /** Merging a table with one more record is one more `update`. */
  lemma MergeInsert(c: Components, q: Components, id: ComponentId, rec: Record)
    requires id !in q
    ensures Merge(c, q[id := rec]) == Merge(c, q)[id := Lookup(Merge(c, q), id) + rec]
  {
    var before := Merge(c, q);
    var after := Merge(c, q[id := rec]);
    assert Lookup(before, id) == Lookup(c, id);
    var stepped := before[id := Lookup(before, id) + rec];
    forall k | k in after.Keys
      ensures k in stepped && after[k] == stepped[k]
    {
      if k == id {
        assert after[k] == Lookup(c, id) + rec;
      } else {
        assert k in before && after[k] == before[k];
      }
    }
    assert after == stepped;
  }

  lemma RestrictCovering(p: Components, ids: set<ComponentId>)
    requires p.Keys <= ids
    ensures Restrict(p, ids) == p
  {
  }

  /** The records a loop builds for `ids`, leaving out the ids it builds none for. */
  function Built(ids: set<ComponentId>, build: ComponentId -> Option<Record>): (r: Components)
    ensures r.Keys == set id | id in ids && build(id).Some?
  {
    map id | id in ids && build(id).Some? :: build(id).value
  }

  /** A table that the loop body reproduces entry by entry is what the loop builds. */
  lemma BuiltIs(p: Components, ids: set<ComponentId>, build: ComponentId -> Option<Record>)
    requires p.Keys == ids
    requires forall id <- ids :: build(id) == Some(p[id])
    ensures Built(ids, build) == p
  {
  }

  /** The three passes in order, each merged into the result of the one before, from an empty defaultdict. */
  function Combine(a: Components, m: Components, c: Components): (r: Components)
    ensures r.Keys == a.Keys + m.Keys + c.Keys
  {
    Merge(Merge(Merge(map[], a), m), c)
  }

  /** One field of one component after a merge: the partial record's value wins, else the old one stays. */
  lemma MergeField(c: Components, p: Components, id: ComponentId, f: Field)
    requires id in c || id in p
    ensures f in Merge(c, p)[id] <==> f in Lookup(c, id) || f in Lookup(p, id)
    ensures f in Lookup(p, id) ==> Merge(c, p)[id][f] == p[id][f]
    ensures f !in Lookup(p, id) && f in Lookup(c, id) ==> Merge(c, p)[id][f] == c[id][f]
  {
  }

  /** The pass that writes a field: each field has exactly one. */
  datatype Writer = AssemblyWriter | MetricsWriter | PointsWriter

  function WriterOf(f: Field): Writer
  {
    match f
    case ComponentName | CadFilenameOriginal | CadType => AssemblyWriter
    case Points => PointsWriter
    case _ => MetricsWriter
  }

  /** Every partial record of `p` holds only fields `w` writes. */
  predicate WrittenBy(p: Components, w: Writer)
  {
    forall k <- p.Keys :: forall g <- p[k].Keys :: WriterOf(g) == w
  }

  /** A field of a component written by `w`'s partial records is written by `w`. */
  lemma WrittenField(p: Components, w: Writer, id: ComponentId, f: Field)
    requires WrittenBy(p, w) && f in Lookup(p, id)
    ensures WriterOf(f) == w
  {
  }

  /**
   * When at most one pass writes a field of a component, that field of its
   * record after all three is present iff one of the passes wrote it, and
   * holds the value that pass wrote.
   */
  lemma CombineField(a: Components, m: Components, c: Components, id: ComponentId, f: Field)
    requires f in Lookup(a, id) ==> f !in Lookup(m, id) && f !in Lookup(c, id)
    requires f in Lookup(m, id) ==> f !in Lookup(c, id)
    requires id in Combine(a, m, c)
    ensures f in Combine(a, m, c)[id] <==> f in Lookup(a, id) || f in Lookup(m, id) || f in Lookup(c, id)
    ensures f in Lookup(a, id) ==> f in Combine(a, m, c)[id] && Combine(a, m, c)[id][f] == a[id][f]
    ensures f in Lookup(m, id) ==> f in Combine(a, m, c)[id] && Combine(a, m, c)[id][f] == m[id][f]
    ensures f in Lookup(c, id) ==> f in Combine(a, m, c)[id] && Combine(a, m, c)[id][f] == c[id][f]
  {
    var c0 := Merge(map[], a);
    var c1 := Merge(c0, m);
    if id in a || id in m {
      if id in a {
        MergeField(map[], a, id, f);
      }
      assert Lookup(c0, id) == Lookup(a, id);
      MergeField(c0, m, id, f);
    }
    MergeField(c1, c, id, f);
  }
}
