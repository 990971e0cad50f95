/**
 * The runtime binder (`UxmlConvertedBase`): on construction a generated class
 * clones its asset into `Root`, walks `Root`'s children to collect the named
 * elements (first one wins, as the generator did), runs the generated
 * `AssignFields`, and finally collects the template placeholders and hands
 * them to `MakeTemplatesInstances`, which does nothing unless overridden.
 *
 * The asset database is a map from GUID to the top-level elements of the
 * asset. The generated subclass is represented by the (name, type) entries it
 * declares; its `AssignFields` performs one cast-and-lookup per entry, in order.
 */
module ConvertedBase {
  import opened Wrappers
  import opened UiTree
  import opened OrderedDictionary
  import opened Converter

  /** The exceptions construction can end with. */
  datatype Fault =
    | AssetNotFound(guid: string)                                    // `LoadAssetAtPath` gave null
    | KeyNotFound(key: string)                                       // `elementsToAssign[key]` missing
    | InvalidCast(key: string, declaredType: string, actualType: string)  // the cast `(T)` failed

  /** The steps of the constructor, recorded in the order they run. */
  datatype Phase = TreeCloned | ElementsCollected | FieldsAssigned | TemplatesCloned

  /** The `elementsToAssign` dictionary after the walk over top-level elements `elements`. */
  function RuntimeElements(elements: seq<Node>): seq<(string, Node)>
  {
    FirstWins([], NameCandidates(PreOrderAll(elements)))
  }

  /** The names the same walk reports as duplicates. */
  function RuntimeDuplicates(elements: seq<Node>): seq<string>
  {
    Duplicates([], NameCandidates(PreOrderAll(elements)))
  }

  /**
   * `RecursiveFromStyle`: the generator's walk, storing the element itself
   * instead of its type. The `ref` dictionary and the error log are threaded
   * in and out.
   */
  method RecursiveFromStyle(element: Node, fields: seq<(string, Node)>, log: seq<string>)
    returns (fields': seq<(string, Node)>, log': seq<string>)
    ensures fields' == FirstWins(fields, NameCandidates(PreOrder(element)))
    ensures log' == log + Duplicates(fields, NameCandidates(PreOrder(element)))
  {
    fields', log' := fields, log;
    if element.csName.Some? {
      var name := element.csName.value;
      if ContainsKey(fields', name) {
        log' := log' + [name];
      } else {
        fields' := fields' + [(name, element)];
      }
    }
    FromStyleFirst(element, fields);
    for i := 0 to |element.children|
      invariant fields' == FirstWins(fields, NameCandidates([element] + PreOrderAll(element.children[..i])))
      invariant log' == log + Duplicates(fields, NameCandidates([element] + PreOrderAll(element.children[..i])))
    {
      fields', log' := RecursiveFromStyle(element.children[i], fields', log');
      FromStyleStep(element, fields, log, i);
    }
    assert element.children[..|element.children|] == element.children;
  }

  lemma FromStyleFirst(element: Node, fields: seq<(string, Node)>)
    ensures var c := NameCandidates([element] + PreOrderAll(element.children[..0]));
      && FirstWins(fields, c)
         == (if element.csName.Some? && !ContainsKey(fields, element.csName.value)
             then fields + [(element.csName.value, element)] else fields)
      && Duplicates(fields, c)
         == (if element.csName.Some? && ContainsKey(fields, element.csName.value)
             then [element.csName.value] else [])
  {
    assert [element] + PreOrderAll(element.children[..0]) == [element];
    var c := NameCandidates([element]);
    assert c == (if element.csName.Some? then [(element.csName.value, element)] else []);
    assert c != [] ==> c[1..] == [];
  }

  lemma FromStyleStep(element: Node, fields: seq<(string, Node)>, log: seq<string>, i: nat)
    requires i < |element.children|
    ensures var before := NameCandidates([element] + PreOrderAll(element.children[..i]));
      var after := NameCandidates([element] + PreOrderAll(element.children[..i + 1]));
      var child := NameCandidates(PreOrder(element.children[i]));
      && FirstWins(fields, after) == FirstWins(FirstWins(fields, before), child)
      && log + Duplicates(fields, after) == (log + Duplicates(fields, before)) + Duplicates(FirstWins(fields, before), child)
  {
    var before := [element] + PreOrderAll(element.children[..i]);
    var child := PreOrder(element.children[i]);
    PreOrderAllSnoc(element.children, i);
    assert [element] + PreOrderAll(element.children[..i + 1]) == before + child;
    NameCandidatesAppend(before, child);
    FirstWinsAppend(fields, NameCandidates(before), NameCandidates(child));
    AppendAssociative(log, Duplicates(fields, NameCandidates(before)), Duplicates(FirstWins(fields, NameCandidates(before)), NameCandidates(child)));
  }

  /** `RecursiveGetTemplatesWithParents`: append every `--csTemplate` element of the subtree, in pre-order. */
  method RecursiveGetTemplatesWithParents(e: Node, markedToDelete: seq<Node>) returns (marked': seq<Node>)
    ensures marked' == markedToDelete + TemplateNodes(PreOrder(e))
  {
    marked' := markedToDelete;
    if e.csTemplate.Some? {
      marked' := marked' + [e];
    }
    assert [e] + PreOrderAll(e.children[..0]) == [e];
    assert TemplateNodes([e]) == (if e.csTemplate.Some? then [e] else []);
    for i := 0 to |e.children|
      invariant marked' == markedToDelete + TemplateNodes([e] + PreOrderAll(e.children[..i]))
    {
      ghost var before := [e] + PreOrderAll(e.children[..i]);
      ghost var child := PreOrder(e.children[i]);
      marked' := RecursiveGetTemplatesWithParents(e.children[i], marked');
      PreOrderAllSnoc(e.children, i);
      assert [e] + PreOrderAll(e.children[..i + 1]) == before + child;
      TemplateNodesAppend(before, child);
      AppendAssociative(markedToDelete, TemplateNodes(before), TemplateNodes(child));
    }
    assert e.children[..|e.children|] == e.children;
  }

  /** What the generated statement `name = (T)elementsToAssign["name"];` throws, if anything. */
  function FieldFault(field: (string, string), lookup: seq<(string, Node)>): (r: Option<Fault>)
    ensures r.None? <==> Get(lookup, field.0).Some? && Get(lookup, field.0).value.typeTag == field.1
  {
    match Get(lookup, field.0)
    case None => Some(KeyNotFound(field.0))
    case Some(n) => if n.typeTag == field.1 then None else Some(InvalidCast(field.0, field.1, n.typeTag))
  }

  /**
   * The generated `AssignFields`: the statements in declaration order, the
   * first one that throws ending the call; otherwise every field bound to the
   * element found under its name.
   */
  function AssignAll(declared: seq<(string, string)>, lookup: seq<(string, Node)>): (r: Result<seq<(string, Node)>, Fault>)
    ensures r.Ok? ==> |r.value| == |declared|
    decreases |declared|
  {
    if declared == [] then Ok([])
    else match FieldFault(declared[0], lookup)
      case Some(f) => Err(f)
      case None => Prepend([(declared[0].0, Get(lookup, declared[0].0).value)], AssignAll(declared[1..], lookup))
  }

  /**
   * The bindings the generated statements make before the first one throws,
   * or all of them when none throws: field i is bound exactly when no
   * statement up to and including i faults.
   */
  function Performed(declared: seq<(string, string)>, lookup: seq<(string, Node)>): (r: seq<(string, Node)>)
    ensures |r| <= |declared|
    decreases |declared|
  {
    if declared == [] then []
    else match FieldFault(declared[0], lookup)
      case Some(_) => []
      case None => [(declared[0].0, Get(lookup, declared[0].0).value)] + Performed(declared[1..], lookup)
  }

  /**
   * The bindings made are those of the longest fault-free prefix of the
   * declared fields: each binds its field to the element found under its
   * name, and the next statement, if any, faults.
   */
  lemma {:induction false} PerformedPrefix(declared: seq<(string, string)>, lookup: seq<(string, Node)>)
    ensures var r := Performed(declared, lookup);
      && (forall i :: 0 <= i < |r| ==>
            FieldFault(declared[i], lookup).None? && r[i] == (declared[i].0, Get(lookup, declared[i].0).value))
      && (|r| < |declared| ==> FieldFault(declared[|r|], lookup).Some?)
    decreases |declared|
  {
    if declared != [] && FieldFault(declared[0], lookup).None? {
      PerformedPrefix(declared[1..], lookup);
      var r := Performed(declared, lookup);
      forall i | 0 < i < |r| ensures declared[i] == declared[1..][i - 1] { }
      if |r| < |declared| {
        assert declared[|r|] == declared[1..][|r| - 1];
      }
    }
  }

  /**
   * On success `AssignFields` has made every binding; on failure it has made
   * those before the faulting statement, whose fault it throws.
   */
  lemma {:induction false} PerformedOutcome(declared: seq<(string, string)>, lookup: seq<(string, Node)>)
    ensures AssignAll(declared, lookup).Ok? ==> AssignAll(declared, lookup).value == Performed(declared, lookup)
    ensures AssignAll(declared, lookup).Err? ==>
      |Performed(declared, lookup)| < |declared|
      && FieldFault(declared[|Performed(declared, lookup)|], lookup) == Some(AssignAll(declared, lookup).error)
    decreases |declared|
  {
    if declared != [] && FieldFault(declared[0], lookup).None? {
      PerformedOutcome(declared[1..], lookup);
      var p := Performed(declared[1..], lookup);
      if AssignAll(declared[1..], lookup).Err? {
        assert declared[1..][|p|] == declared[1 + |p|];
      }
    }
  }

  /** One statement of `AssignFields`: the binding it makes, if any, and those of the rest. */
  lemma PerformedStep(declared: seq<(string, string)>, lookup: seq<(string, Node)>, i: nat)
    requires i < |declared|
    ensures FieldFault(declared[i], lookup).Some? ==> Performed(declared[i..], lookup) == []
    ensures FieldFault(declared[i], lookup).None? ==>
      Performed(declared[i..], lookup) == [(declared[i].0, Get(lookup, declared[i].0).value)] + Performed(declared[i + 1..], lookup)
  {
    assert declared[i..][0] == declared[i] && declared[i..][1..] == declared[i + 1..];
  }

  /**
   * Where `AssignFields` stops: after the last statement, or at one that
   * faults. The bindings made so far are then all it makes, and its outcome
   * is success exactly in the first case.
   */
  lemma AssignFieldsStop(declared: seq<(string, string)>, lookup: seq<(string, Node)>, i: nat, bound: seq<(string, Node)>)
    requires i <= |declared| && |bound| == i
    requires Performed(declared, lookup) == bound + Performed(declared[i..], lookup)
    requires i < |declared| ==> FieldFault(declared[i], lookup).Some?
    ensures Performed(declared, lookup) == bound
    ensures AssignAll(declared, lookup).Ok? <==> i == |declared|
    ensures AssignAll(declared, lookup).Ok? ==> AssignAll(declared, lookup).value == bound
    ensures i < |declared| ==> AssignAll(declared, lookup) == Err(FieldFault(declared[i], lookup).value)
  {
    if i < |declared| {
      PerformedStep(declared, lookup, i);
    } else {
      assert declared[i..] == [];
    }
    AssignAllOutcome(declared, lookup);
    PerformedOutcome(declared, lookup);
  }

  /** Bindings done before the rest of the statements run. */
  function Prepend(done: seq<(string, Node)>, r: Result<seq<(string, Node)>, Fault>): Result<seq<(string, Node)>, Fault>
  {
    match r
    case Ok(rest) => Ok(done + rest)
    case Err(f) => Err(f)
  }

  /**
   * `AssignFields` succeeds exactly when every declared field finds an element
   * of its declared type; it then binds field i to that element. Otherwise it
   * throws the fault of the first statement that fails.
   */
  lemma {:induction false} AssignAllOutcome(declared: seq<(string, string)>, lookup: seq<(string, Node)>)
    ensures AssignAll(declared, lookup).Ok? <==> forall i :: 0 <= i < |declared| ==> FieldFault(declared[i], lookup).None?
    ensures AssignAll(declared, lookup).Ok? ==>
      var bound := AssignAll(declared, lookup).value;
      |bound| == |declared| &&
      forall i :: 0 <= i < |declared| ==> bound[i] == (declared[i].0, Get(lookup, declared[i].0).value)
    ensures AssignAll(declared, lookup).Err? ==>
      exists j :: 0 <= j < |declared| && FieldFault(declared[j], lookup) == Some(AssignAll(declared, lookup).error)
               && forall i :: 0 <= i < j ==> FieldFault(declared[i], lookup).None?
    decreases |declared|
  {
    if declared != [] {
      AssignAllOutcome(declared[1..], lookup);
      var rest := AssignAll(declared[1..], lookup);
      if FieldFault(declared[0], lookup).None? {
        if rest.Err? {
          var j :| 0 <= j < |declared[1..]| && FieldFault(declared[1..][j], lookup) == Some(rest.error)
                   && forall i :: 0 <= i < j ==> FieldFault(declared[1..][i], lookup).None?;
          assert FieldFault(declared[j + 1], lookup) == Some(rest.error);
          forall i | 0 <= i < j + 1 ensures FieldFault(declared[i], lookup).None? {
            if i > 0 { assert declared[i] == declared[1..][i - 1]; }
          }
        }
        forall i | 0 < i < |declared| ensures declared[i] == declared[1..][i - 1] { }
      }
    }
  }

  /** Both walks visit the same nodes in the same order: the runtime dictionary, typed, is the generator's. */
  lemma WalksAgree(elements: seq<Node>)
    ensures MapValues(RuntimeElements(elements), TypeName) == GeneratorFields(elements)
    ensures RuntimeDuplicates(elements) == GeneratorDuplicates(elements)
    ensures Keys(RuntimeElements(elements)) == Keys(GeneratorFields(elements))
  {
    FirstWinsMapValues([], NameCandidates(PreOrderAll(elements)), TypeName);
    assert MapValues([], TypeName) == [];
  }

  /**
   * Round trip: generating a class from a tree and binding it against the same
   * tree succeeds, binding every declared field, in order, to the first node in
   * pre-order carrying its name, whose type is the declared type.
   */
  lemma RoundTrip(elements: seq<Node>)
    ensures var declared := GeneratorFields(elements);
      var r := AssignAll(declared, RuntimeElements(elements));
      && r.Ok? && |r.value| == |declared|
      && forall i :: 0 <= i < |declared| ==>
           && r.value[i].0 == declared[i].0
           && FirstNamed(PreOrderAll(elements), declared[i].0) == Some(r.value[i].1)
           && r.value[i].1.typeTag == declared[i].1
  {
    var declared, lookup := GeneratorFields(elements), RuntimeElements(elements);
    var xs := PreOrderAll(elements);
    WalksAgree(elements);
    FirstWinsDistinct([], NameCandidates(xs));
    forall i | 0 <= i < |declared|
      ensures Get(lookup, declared[i].0) == Some(lookup[i].1)
      ensures FieldFault(declared[i], lookup).None?
      ensures FirstNamed(xs, declared[i].0) == Some(lookup[i].1)
    {
      GetDistinct(lookup, i);
      FirstWinsGet([], NameCandidates(xs), declared[i].0);
      GetNameCandidates(xs, declared[i].0);
    }
    AssignAllOutcome(declared, lookup);
  }

  /**
   * Stale-class detection: binding a declared field list against a tree
   * succeeds exactly when every declared name is carried by some node and
   * the first node carrying it has the declared type. So a tree in which no
   * node carries some declared name, or in which the first node carrying it
   * has another type, makes binding throw; removing or retyping one of
   * several nodes that share a name need not.
   */
  lemma BindingSucceedsIff(declared: seq<(string, string)>, elements: seq<Node>)
    ensures AssignAll(declared, RuntimeElements(elements)).Ok? <==>
      forall i :: 0 <= i < |declared| ==>
        var first := FirstNamed(PreOrderAll(elements), declared[i].0);
        first.Some? && first.value.typeTag == declared[i].1
  {
    var xs := PreOrderAll(elements);
    forall i | 0 <= i < |declared| ensures Get(RuntimeElements(elements), declared[i].0) == FirstNamed(xs, declared[i].0) {
      FirstWinsGet([], NameCandidates(xs), declared[i].0);
      GetNameCandidates(xs, declared[i].0);
    }
    AssignAllOutcome(declared, RuntimeElements(elements));
  }

  /**
   * One generated class instance. `declaredFields` stands for the generated
   * subclass: the (name, type) entries its `AssignFields` assigns, in order;
   * `boundFields` holds the values of those fields once assigned.
   */
  class UxmlConvertedBase {
    const uxmlGuid: string
    const declaredFields: seq<(string, string)>
    var Root: Node
    var elementsToAssign: seq<(string, Node)>
    var boundFields: seq<(string, Node)>
    var duplicateLog: seq<string>
    var fault: Option<Fault>
    ghost var trace: seq<Phase>

    /**
     * The constructor: load the asset (the host resolves `uxmlGuid` through
     * `assets`), clone it into `Root`, collect the named elements, run
     * `AssignFields`, then `CloneTemplates`. An exception ends construction
     * at the step that throws.
     */
    constructor (guid: string, declared: seq<(string, string)>, assets: map<string, seq<Node>>)
      ensures uxmlGuid == guid && declaredFields == declared
      ensures guid !in assets ==>
        && fault == Some(AssetNotFound(guid)) && trace == []
        && Root == Node(RootTypeTag, None, None, []) && elementsToAssign == [] && boundFields == []
      ensures guid in assets ==>
        var bound := AssignAll(declared, RuntimeElements(assets[guid]));
        && Root == Node(RootTypeTag, None, None, assets[guid])
        && elementsToAssign == RuntimeElements(assets[guid])
        && boundFields == Performed(declared, RuntimeElements(assets[guid]))
        && duplicateLog == RuntimeDuplicates(assets[guid])
        && (bound.Ok? ==> fault == None && boundFields == bound.value
                          && trace == [TreeCloned, ElementsCollected, FieldsAssigned, TemplatesCloned])
        && (bound.Err? ==> fault == Some(bound.error)
                           && trace == [TreeCloned, ElementsCollected, FieldsAssigned])
    {
      uxmlGuid := guid;
      declaredFields := declared;
      Root := Node(RootTypeTag, None, None, []);
      elementsToAssign := [];
      boundFields := [];
      duplicateLog := [];
      fault := None;
      trace := [];
      new;
      if guid !in assets {
        fault := Some(AssetNotFound(guid));
        return;
      }
      Root := Root.(children := assets[guid]);
      trace := trace + [TreeCloned];
      CollectElements();
      AssignFields();
      if fault.None? {
        var _ := CloneTemplates();
      }
    }

    /** The constructor's `foreach` over `Root`'s children, calling `RecursiveFromStyle` on each. */
    method CollectElements()
      modifies this`elementsToAssign, this`duplicateLog, this`trace
      ensures elementsToAssign == FirstWins(old(elementsToAssign), NameCandidates(PreOrderAll(Root.children)))
      ensures duplicateLog == old(duplicateLog) + Duplicates(old(elementsToAssign), NameCandidates(PreOrderAll(Root.children)))
      ensures trace == old(trace) + [ElementsCollected]
    {
      ghost var d0, log0 := elementsToAssign, duplicateLog;
      var children := Root.children;
      for i := 0 to |children|
        invariant elementsToAssign == FirstWins(d0, NameCandidates(PreOrderAll(children[..i])))
        invariant duplicateLog == log0 + Duplicates(d0, NameCandidates(PreOrderAll(children[..i])))
        invariant trace == old(trace)
      {
        ghost var before := NameCandidates(PreOrderAll(children[..i]));
        ghost var next := NameCandidates(PreOrder(children[i]));
        elementsToAssign, duplicateLog := RecursiveFromStyle(children[i], elementsToAssign, duplicateLog);
        PreOrderAllSnoc(children, i);
        NameCandidatesAppend(PreOrderAll(children[..i]), PreOrder(children[i]));
        FirstWinsAppend(d0, before, next);
        AppendAssociative(log0, Duplicates(d0, before), Duplicates(FirstWins(d0, before), next));
      }
      assert children[..|children|] == children;
      trace := trace + [ElementsCollected];
    }

    /**
     * The generated `AssignFields`: one cast-and-lookup per declared field, in
     * order; the first failing statement throws and leaves the remaining
     * fields unassigned.
     */
    method AssignFields()
      requires fault.None?
      modifies this`boundFields, this`fault, this`trace
      ensures boundFields == old(boundFields) + Performed(declaredFields, elementsToAssign)
      ensures var r := AssignAll(declaredFields, elementsToAssign);
        && (r.Ok? ==> fault == None && boundFields == old(boundFields) + r.value)
        && (r.Err? ==> fault == Some(r.error))
      ensures trace == old(trace) + [FieldsAssigned]
    {
      trace := trace + [FieldsAssigned];
      ghost var b0 := boundFields;
      var bound: seq<(string, Node)> := [];
      assert declaredFields[0..] == declaredFields;
      for i := 0 to |declaredFields|
        invariant |bound| == i
        invariant Performed(declaredFields, elementsToAssign) == bound + Performed(declaredFields[i..], elementsToAssign)
        invariant boundFields == b0 + bound && fault.None?
        invariant trace == old(trace) + [FieldsAssigned]
      {
        var field := declaredFields[i];
        var found := Get(elementsToAssign, field.0);
        if found.None? || found.value.typeTag != field.1 {
          fault := if found.None? then Some(KeyNotFound(field.0)) else Some(InvalidCast(field.0, field.1, found.value.typeTag));
          AssignFieldsStop(declaredFields, elementsToAssign, i, bound);
          return;
        }
        PerformedStep(declaredFields, elementsToAssign, i);
        AppendAssociative(bound, [(field.0, found.value)], Performed(declaredFields[i + 1..], elementsToAssign));
        bound := bound + [(field.0, found.value)];
        boundFields := boundFields + [(field.0, found.value)];
      }
      AssignFieldsStop(declaredFields, elementsToAssign, |declaredFields|, bound);
    }

    /** `CloneTemplates`: collect the template placeholders under `Root` and pass them on. */
    method CloneTemplates() returns (markedToDelete: seq<Node>)
      modifies this`Root, this`trace
      ensures markedToDelete == TemplateNodes(PreOrderAll(Root.children))
      ensures Root == old(Root)
      ensures trace == old(trace) + [TemplatesCloned]
    {
      markedToDelete := [];
      var children := Root.children;
      for i := 0 to |children|
        invariant markedToDelete == TemplateNodes(PreOrderAll(children[..i]))
        invariant Root == old(Root) && trace == old(trace)
      {
        markedToDelete := RecursiveGetTemplatesWithParents(children[i], markedToDelete);
        PreOrderAllSnoc(children, i);
        TemplateNodesAppend(PreOrderAll(children[..i]), PreOrder(children[i]));
      }
      assert children[..|children|] == children;
      MakeTemplatesInstances(markedToDelete);
      trace := trace + [TemplatesCloned];
    }

    /** The default `MakeTemplatesInstances`: a generated class without templates does nothing here. */
    method MakeTemplatesInstances(markedToDelete: seq<Node>)
      modifies this`Root
      ensures Root == old(Root)
    {
    }
  }

  /**
   * Generation followed by instantiation against the unchanged asset: the
   * generator writes its class, and constructing that class binds every field
   * it declares, with no exception, and runs all four steps in order.
   */
  method GenerateThenConstruct(asset: VisualTreeAsset) returns (g: Generation, fault: Option<Fault>, bound: seq<(string, Node)>)
    ensures g.Written? && g.pathCs == OutputPath(asset.path)
    ensures fault == None
    ensures |bound| == |GeneratorFields(asset.elements)|
    ensures forall i :: 0 <= i < |bound| ==>
      bound[i].0 == GeneratorFields(asset.elements)[i].0 && bound[i].1.typeTag == GeneratorFields(asset.elements)[i].1
  {
    g := CreateOrUpdateClass(Some(asset));
    RoundTrip(asset.elements);
    var instance := new UxmlConvertedBase(asset.guid, GeneratorFields(asset.elements), map[asset.guid := asset.elements]);
    assert instance.trace == [TreeCloned, ElementsCollected, FieldsAssigned, TemplatesCloned];
    fault, bound := instance.fault, instance.boundFields;
  }

  /**
   * The worked example `[Label(name=a), Group[Button(name=b), Group(template=Foo)]]`:
   * fields `a: Label` and `b: Button`, and one template placeholder.
   */
  lemma WorkedExample()
    ensures var foo := Node("VisualElement", None, Some("Foo"), []);
      var tree := [Node("Label", Some("a"), None, []),
                   Node("VisualElement", None, None, [Node("Button", Some("b"), None, []), foo])];
      && GeneratorFields(tree) == [("a", "Label"), ("b", "Button")]
      && GeneratorDuplicates(tree) == []
      && TemplateNodes(PreOrderAll(tree)) == [foo]
  {
    var foo := Node("VisualElement", None, Some("Foo"), []);
    var labelA := Node("Label", Some("a"), None, []);
    var button := Node("Button", Some("b"), None, []);
    var group := Node("VisualElement", None, None, [button, foo]);
    ExampleWalk(labelA, group, button, foo);
    ExampleCandidates(labelA, group, button, foo);
    var c := TypeCandidates([labelA, group, button, foo]);
    assert c == [("a", "Label"), ("b", "Button")];
    assert c[1..] == [("b", "Button")];
    assert ContainsKey([("a", "Label")], "b") == false by {
      assert Keys([("a", "Label")]) == ["a"];
    }
  }

  /** The worked example's document order. */
  lemma ExampleWalk(labelA: Node, group: Node, button: Node, foo: Node)
    requires labelA.children == [] && button.children == [] && foo.children == []
    requires group.children == [button, foo]
    ensures PreOrderAll([labelA, group]) == [labelA, group, button, foo]
  {
    assert PreOrderAll([foo]) == [foo];
    assert PreOrderAll([button, foo]) == [button, foo] by {
      assert [button, foo][1..] == [foo];
    }
    assert PreOrder(group) == [group, button, foo];
    assert PreOrderAll([group]) == [group, button, foo];
    assert [labelA, group][1..] == [group];
  }

  /** The worked example's named and template nodes. */
  lemma ExampleCandidates(labelA: Node, group: Node, button: Node, foo: Node)
    requires labelA.csName == Some("a") && labelA.csTemplate.None?
    requires group.csName.None? && group.csTemplate.None?
    requires button.csName == Some("b") && button.csTemplate.None?
    requires foo.csName.None? && foo.csTemplate.Some?
    ensures NameCandidates([labelA, group, button, foo]) == [("a", labelA), ("b", button)]
    ensures TemplateNodes([labelA, group, button, foo]) == [foo]
  {
    var xs := [labelA, group, button, foo];
    assert xs[1..] == [group, button, foo] && xs[1..][1..] == [button, foo] && xs[1..][1..][1..] == [foo];
    assert [foo][1..] == [];
    assert NameCandidates([foo]) == [] && TemplateNodes([foo]) == [foo];
    assert NameCandidates([button, foo]) == [("b", button)] && TemplateNodes([button, foo]) == [foo];
    assert NameCandidates([group, button, foo]) == [("b", button)] && TemplateNodes([group, button, foo]) == [foo];
  }
}
