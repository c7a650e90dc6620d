/**
 * `_parse_cadassembly_xml`: every CADComponent of CADAssembly.xml, at any
 * depth, contributes its display name, original CAD file name and CAD type,
 * keyed by its ComponentID.
 */
module AssemblyPass {
  import opened Wrappers
  import opened Xml
  import opened Tables
  import opened Records

  /** The fields this pass writes into a component's record. */
  const AssemblyKeys: set<Field> := {ComponentName, CadFilenameOriginal, CadType}

  function ComponentIdOf(e: Element): ComponentId { Get(e, "ComponentID") }
  function DisplayNameOf(e: Element): Option<string> { Get(e, "DisplayName") }
  function FileNameOf(e: Element): Option<string> { Get(e, "Name") }
  function TypeOf(e: Element): Option<string> { Get(e, "Type") }

  /** The `component_data` dict written for one component. */
  function AssemblyRecord(name: Option<string>, file: Option<string>, kind: Option<string>): Record
  {
    map[ComponentName := OptText(name), CadFilenameOriginal := OptText(file), CadType := OptText(kind)]
  }

  /**
   * The partial records this pass merges into `components`: one per distinct
   * ComponentID, built from the three lookup dicts the mining loop fills.
   */
  function AssemblyPartials(root: Element): (p: Components)
    ensures p.Keys == KeySet(Iter(root, "CADComponent"), ComponentIdOf)
    ensures forall id <- p.Keys :: p[id].Keys == AssemblyKeys
  {
    var es := Iter(root, "CADComponent");
    var names := TableBy(es, ComponentIdOf, DisplayNameOf);
    var files := TableBy(es, ComponentIdOf, FileNameOf);
    var kinds := TableBy(es, ComponentIdOf, TypeOf);
    map comp | comp in names :: AssemblyRecord(names[comp], files[comp], kinds[comp])
  }

  /**
   * A component gets a record iff some CADComponent carries its ID, and all
   * three fields come from the last such CADComponent in document order.
   */
  lemma AssemblyRecordOfLast(root: Element, id: ComponentId)
    ensures var es := Iter(root, "CADComponent");
            id in AssemblyPartials(root) <==> exists i | 0 <= i < |es| :: Get(es[i], "ComponentID") == id
    ensures var es := Iter(root, "CADComponent");
            id in AssemblyPartials(root) ==>
              exists i :: IsLast(es, ComponentIdOf, id, i)
                          && AssemblyPartials(root)[id]
                             == AssemblyRecord(Get(es[i], "DisplayName"), Get(es[i], "Name"), Get(es[i], "Type"))
  {
    var es := Iter(root, "CADComponent");
    KeySetMember(es, ComponentIdOf, id);
    if id in AssemblyPartials(root) {
      TableByLast(es, ComponentIdOf, DisplayNameOf, id);
      TableByLast(es, ComponentIdOf, FileNameOf, id);
      TableByLast(es, ComponentIdOf, TypeOf, id);
      var i :| IsLast(es, ComponentIdOf, id, i) && TableBy(es, ComponentIdOf, DisplayNameOf)[id] == DisplayNameOf(es[i]);
      var j :| IsLast(es, ComponentIdOf, id, j) && TableBy(es, ComponentIdOf, FileNameOf)[id] == FileNameOf(es[j]);
      var k :| IsLast(es, ComponentIdOf, id, k) && TableBy(es, ComponentIdOf, TypeOf)[id] == TypeOf(es[k]);
      LastUnique(es, ComponentIdOf, id, i, j);
      LastUnique(es, ComponentIdOf, id, i, k);
      assert AssemblyPartials(root)[id] == AssemblyRecord(DisplayNameOf(es[i]), FileNameOf(es[i]), TypeOf(es[i]));
    }
  }

  /** The mining loop: the three lookup dicts, filled CADComponent by CADComponent. */
  method MineAssembly(es: seq<Element>)
    returns (names: map<ComponentId, Option<string>>, files: map<ComponentId, Option<string>>,
             kinds: map<ComponentId, Option<string>>)
    ensures names == TableBy(es, ComponentIdOf, DisplayNameOf)
    ensures files == TableBy(es, ComponentIdOf, FileNameOf)
    ensures kinds == TableBy(es, ComponentIdOf, TypeOf)
  {
    names, files, kinds := map[], map[], map[];
    for i := 0 to |es|
      invariant names == TableBy(es[..i], ComponentIdOf, DisplayNameOf)
      invariant files == TableBy(es[..i], ComponentIdOf, FileNameOf)
      invariant kinds == TableBy(es[..i], ComponentIdOf, TypeOf)
    {
      assert es[..i + 1][..i] == es[..i];
      var comp := Get(es[i], "ComponentID");
      names := names[comp := Get(es[i], "DisplayName")];
      files := files[comp := Get(es[i], "Name")];
      kinds := kinds[comp := Get(es[i], "Type")];
    }
    assert es[..|es|] == es;
  }
}
