/**
 * The generator (`Converter.CreateOrUpdateClass` and `Converter.RecursiveFill`):
 * it walks a cloned UI tree, collects the `--csName` fields with their types,
 * first one wins, and emits the C# text of the `<asset>Converted` class.
 *
 * The asset database, the file write and the refresh are host calls: the asset
 * arrives as a value holding its path, its name, the GUID the asset database
 * gives for that path and the top-level elements `CloneTree` produces, and the
 * method returns the path and text it would write.
 */
module Converter {
  import opened Wrappers
  import opened UiTree
  import opened OrderedDictionary

  /** What the generator needs of a `VisualTreeAsset`; `guid` is `AssetPathToGUID(path)`. */
  datatype VisualTreeAsset = VisualTreeAsset(path: string, name: string, guid: string, elements: seq<Node>)

  /**
   * What one call does: log "Uxml is null" and stop, or write `text` to
   * `pathCs`, having logged one "multiple elements" error per name in `duplicateNames`.
   */
  datatype Generation = UxmlIsNull | Written(pathCs: string, text: string, duplicateNames: seq<string>)

  /** `GetType().Name` of an element. */
  function TypeName(n: Node): string
  {
    n.typeTag
  }

  /** The (name, type name) pairs that the walk offers to the dictionary, in visiting order. */
  function TypeCandidates(xs: seq<Node>): seq<(string, string)>
  {
    MapValues(NameCandidates(xs), TypeName)
  }

  lemma TypeCandidatesAppend(a: seq<Node>, b: seq<Node>)
    ensures TypeCandidates(a + b) == TypeCandidates(a) + TypeCandidates(b)
  {
    NameCandidatesAppend(a, b);
    assert MapValues(NameCandidates(a) + NameCandidates(b), TypeName)
        == MapValues(NameCandidates(a), TypeName) + MapValues(NameCandidates(b), TypeName);
  }

  /** The `fields` dictionary after the walk over a clone whose top-level elements are `elements`. */
  function GeneratorFields(elements: seq<Node>): seq<(string, string)>
  {
    FirstWins([], TypeCandidates(PreOrderAll(elements)))
  }

  /** The names that the same walk reports as duplicates. */
  function GeneratorDuplicates(elements: seq<Node>): seq<string>
  {
    Duplicates([], TypeCandidates(PreOrderAll(elements)))
  }

  /**
   * `RecursiveFill`: visit `element` and then its subtree, adding each new
   * `--csName` with the element's type and reporting each name already
   * present. The dictionary passed by `ref` is threaded in and out, and so is
   * the error log.
   */
  method RecursiveFill(element: Node, fields: seq<(string, string)>, log: seq<string>)
    returns (fields': seq<(string, string)>, log': seq<string>)
    ensures fields' == FirstWins(fields, TypeCandidates(PreOrder(element)))
    ensures log' == log + Duplicates(fields, TypeCandidates(PreOrder(element)))
  {
    fields', log' := fields, log;
    if element.csName.Some? {
      var name := element.csName.value;
      if ContainsKey(fields', name) {
        log' := log' + [name];
      } else {
        fields' := fields' + [(name, TypeName(element))];
      }
    }
    FillFirst(element, fields);
    for i := 0 to |element.children|
      invariant fields' == FirstWins(fields, TypeCandidates([element] + PreOrderAll(element.children[..i])))
      invariant log' == log + Duplicates(fields, TypeCandidates([element] + PreOrderAll(element.children[..i])))
    {
      fields', log' := RecursiveFill(element.children[i], fields', log');
      FillStep(element, fields, log, i);
    }
    assert element.children[..|element.children|] == element.children;
  }

  /**
   * Associativity of `+` on sequences, as a lemma so that a walk's proof can
   * use it without proving the sequence equality inside its own, larger context.
   */
  lemma AppendAssociative<T>(a: seq<T>, b: seq<T>, c: seq<T>)
    ensures a + (b + c) == (a + b) + c
  {
  }

  /** The walk's first step: the element's own name, before any child. */
  lemma FillFirst(element: Node, fields: seq<(string, string)>)
    ensures var c := TypeCandidates([element] + PreOrderAll(element.children[..0]));
      && FirstWins(fields, c)
         == (if element.csName.Some? && !ContainsKey(fields, element.csName.value)
             then fields + [(element.csName.value, TypeName(element))] else fields)
      && Duplicates(fields, c)
         == (if element.csName.Some? && ContainsKey(fields, element.csName.value)
             then [element.csName.value] else [])
  {
    assert [element] + PreOrderAll(element.children[..0]) == [element];
    var c := TypeCandidates([element]);
    assert c == (if element.csName.Some? then [(element.csName.value, TypeName(element))] else []);
    assert c != [] ==> c[1..] == [];
  }

  /** The walk's later steps: the subtree of the next child, after everything before it. */
  lemma FillStep(element: Node, fields: seq<(string, string)>, log: seq<string>, i: nat)
    requires i < |element.children|
    ensures var before := TypeCandidates([element] + PreOrderAll(element.children[..i]));
      var after := TypeCandidates([element] + PreOrderAll(element.children[..i + 1]));
      var child := TypeCandidates(PreOrder(element.children[i]));
      && FirstWins(fields, after) == FirstWins(FirstWins(fields, before), child)
      && log + Duplicates(fields, after) == (log + Duplicates(fields, before)) + Duplicates(FirstWins(fields, before), child)
  {
    var before := [element] + PreOrderAll(element.children[..i]);
    var child := PreOrder(element.children[i]);
    PreOrderAllSnoc(element.children, i);
    assert [element] + PreOrderAll(element.children[..i + 1]) == before + child;
    TypeCandidatesAppend(before, child);
    FirstWinsAppend(fields, TypeCandidates(before), TypeCandidates(child));
    AppendAssociative(log, Duplicates(fields, TypeCandidates(before)), Duplicates(FirstWins(fields, TypeCandidates(before)), TypeCandidates(child)));
  }

  /** The walk `CreateOrUpdateClass` starts: `RecursiveFill` on every top-level element of the clone. */
  method FillFromElements(elements: seq<Node>) returns (fields: seq<(string, string)>, log: seq<string>)
    ensures fields == GeneratorFields(elements)
    ensures log == GeneratorDuplicates(elements)
  {
    fields, log := [], [];
    for i := 0 to |elements|
      invariant fields == FirstWins([], TypeCandidates(PreOrderAll(elements[..i])))
      invariant log == Duplicates([], TypeCandidates(PreOrderAll(elements[..i])))
    {
      ghost var before := PreOrderAll(elements[..i]);
      ghost var next := PreOrder(elements[i]);
      fields, log := RecursiveFill(elements[i], fields, log);
      PreOrderAllSnoc(elements, i);
      TypeCandidatesAppend(before, next);
      FirstWinsAppend([], TypeCandidates(before), TypeCandidates(next));
    }
    assert elements[..|elements|] == elements;
  }

  /** The line terminator `AppendLine` adds (`Environment.NewLine`, taken here as a line feed). */
  const NewLine: string := "\n"

  /** `StringBuilder.ToString()` of a builder that received exactly `lines` through `AppendLine`. */
  function JoinLines(lines: seq<string>): string
  {
    if lines == [] then "" else lines[0] + NewLine + JoinLines(lines[1..])
  }

  lemma {:induction false} JoinLinesAppend(a: seq<string>, b: seq<string>)
    ensures JoinLines(a + b) == JoinLines(a) + JoinLines(b)
  {
    if a == [] {
      assert a + b == b;
    } else {
      assert (a + b)[0] == a[0];
      assert (a + b)[1..] == a[1..] + b;
      JoinLinesAppend(a[1..], b);
    }
  }

  /** The declaration of one field: `public <Type> <name>;`. */
  function FieldDeclaration(field: (string, string)): string
  {
    "    public " + field.1 + " " + field.0 + ";"
  }

  /** The statement of `AssignFields` for one field: `<name> = (<Type>)elementsToAssign["<name>"];`. */
  function FieldAssignment(field: (string, string)): string
  {
    "        " + field.0 + " = (" + field.1 + ")elementsToAssign[\"" + field.0 + "\"];"
  }

  /** The class header: `public class <asset name>Converted : UxmlConvertedBase`. */
  function ClassDeclaration(assetName: string): string
  {
    "public class " + assetName + "Converted : UxmlConvertedBase"
  }

  /** The property through which the runtime binder finds the asset again. */
  function GuidProperty(guid: string): string
  {
    "    protected override string uxmlGuid => \"" + guid + "\";"
  }

  /** The six lines before the field declarations. */
  function Header(assetName: string, guid: string): seq<string>
  {
    ["using KS.UxmlToCsharp;", "using UnityEngine.UIElements;", "", ClassDeclaration(assetName), "{", GuidProperty(guid)]
  }

  /** The two lines that open the `AssignFields` override. */
  const AssignFieldsOpening: seq<string> := ["    protected override void AssignFields()", "    {"]

  /** The two lines that close `AssignFields` and the class. */
  const Closing: seq<string> := ["    }", "}"]

  /** The lines `CreateOrUpdateClass` appends, in order, for the given dictionary. */
  function ClassLines(assetName: string, guid: string, fields: seq<(string, string)>): (r: seq<string>)
    ensures |r| == 2 * |fields| + 10
    ensures r[..6] == Header(assetName, guid) && r[|r| - 2..] == Closing
  {
    Header(assetName, guid)
    + seq(|fields|, i requires 0 <= i < |fields| => FieldDeclaration(fields[i]))
    + AssignFieldsOpening
    + seq(|fields|, i requires 0 <= i < |fields| => FieldAssignment(fields[i]))
    + Closing
  }

  /**
   * The layout of the emitted class: the header, then line `6 + i` declares
   * the i-th entry, then the `AssignFields` opening, then line `8 + n + i`
   * assigns the i-th entry, then the closing braces; nothing else.
   */
  lemma ClassLinesLayout(assetName: string, guid: string, fields: seq<(string, string)>)
    ensures var lines, n := ClassLines(assetName, guid, fields), |fields|;
      && |lines| == 2 * n + 10
      && lines[..6] == Header(assetName, guid)
      && (forall i :: 0 <= i < n ==> lines[6 + i] == FieldDeclaration(fields[i]))
      && lines[6 + n..8 + n] == AssignFieldsOpening
      && (forall i :: 0 <= i < n ==> lines[8 + n + i] == FieldAssignment(fields[i]))
      && lines[8 + 2 * n..] == Closing
  {
  }

  /**
   * The emitted text begins with the two `using` lines, an empty line, the
   * class header and the `uxmlGuid` property, and ends with the closing braces.
   */
  lemma ClassTextFrame(assetName: string, guid: string, fields: seq<(string, string)>)
    ensures var text := JoinLines(ClassLines(assetName, guid, fields));
      var prefix := "using KS.UxmlToCsharp;" + NewLine + "using UnityEngine.UIElements;" + NewLine + NewLine
                    + ClassDeclaration(assetName) + NewLine + "{" + NewLine + GuidProperty(guid) + NewLine;
      var suffix := "    }" + NewLine + "}" + NewLine;
      && |prefix| + |suffix| <= |text|
      && text[..|prefix|] == prefix
      && text[|text| - |suffix|..] == suffix
  {
    var h := Header(assetName, guid);
    var rest := ClassLines(assetName, guid, fields)[6..];
    var middle := rest[..|rest| - 2];
    assert ClassLines(assetName, guid, fields) == h + middle + Closing;
    JoinLinesAppend(h + middle, Closing);
    JoinLinesAppend(h, middle);
    JoinLinesCons("}", []);
    JoinLinesCons("    }", ["}"]);
    assert Closing == ["    }"] + ["}"];
    JoinSix("using KS.UxmlToCsharp;", "using UnityEngine.UIElements;", "", ClassDeclaration(assetName), "{", GuidProperty(guid));
    var usings := "using KS.UxmlToCsharp;" + NewLine + "using UnityEngine.UIElements;" + NewLine;
    assert usings + "" == usings;
  }

  lemma JoinLinesCons(line: string, rest: seq<string>)
    ensures JoinLines([line] + rest) == line + NewLine + JoinLines(rest)
  {
    assert ([line] + rest)[1..] == rest;
  }

  lemma JoinSix(a: string, b: string, c: string, d: string, e: string, f: string)
    ensures JoinLines([a, b, c, d, e, f])
         == a + NewLine + b + NewLine + c + NewLine + d + NewLine + e + NewLine + f + NewLine
  {
    JoinLinesCons(f, []);
    assert [e, f] == [e] + [f];
    JoinLinesCons(e, [f]);
    assert [d, e, f] == [d] + [e, f];
    JoinLinesCons(d, [e, f]);
    assert [c, d, e, f] == [c] + [d, e, f];
    JoinLinesCons(c, [d, e, f]);
    assert [b, c, d, e, f] == [b] + [c, d, e, f];
    JoinLinesCons(b, [c, d, e, f]);
    assert [a, b, c, d, e, f] == [a] + [b, c, d, e, f];
    JoinLinesCons(a, [b, c, d, e, f]);
  }

  /** `String.Replace(oldValue, newValue)`: every non-overlapping occurrence, scanning left to right, ordinal comparison. */
  function Replace(s: string, oldValue: string, newValue: string): (r: string)
    requires oldValue != []
    ensures oldValue == newValue ==> r == s
    decreases |s|
  {
    if |s| < |oldValue| then s
    else if s[..|oldValue|] == oldValue then
      assert s == s[..|oldValue|] + s[|oldValue|..];
      newValue + Replace(s[|oldValue|..], oldValue, newValue)
    else
      assert s == [s[0]] + s[1..];
      [s[0]] + Replace(s[1..], oldValue, newValue)
  }

  /** `p` occurs in `s` starting at index `i`. */
  predicate OccursAt(p: string, s: string, i: nat)
  {
    i + |p| <= |s| && s[i..i + |p|] == p
  }

  /** `p` occurs somewhere in `s`. */
  ghost predicate Occurs(p: string, s: string)
  {
    exists i: nat :: OccursAt(p, s, i)
  }

  /** An occurrence in `s[1..]` is an occurrence in `s`, one index further. */
  lemma OccursTail(p: string, s: string)
    requires |s| > 0 && !Occurs(p, s)
    ensures !Occurs(p, s[1..])
  {
    forall i: nat | OccursAt(p, s[1..], i) ensures OccursAt(p, s, i + 1) {
      assert s[1..][i..i + |p|] == s[i + 1..i + 1 + |p|];
    }
  }

  /** Replacing a string that does not occur changes nothing. */
  lemma {:induction false} ReplaceAbsent(s: string, oldValue: string, newValue: string)
    requires oldValue != [] && !Occurs(oldValue, s)
    ensures Replace(s, oldValue, newValue) == s
    decreases |s|
  {
    if |s| >= |oldValue| {
      assert !OccursAt(oldValue, s, 0);
      assert s[0..|oldValue|] == s[..|oldValue|];
      OccursTail(oldValue, s);
      ReplaceAbsent(s[1..], oldValue, newValue);
      assert [s[0]] + s[1..] == s;
    }
  }

  const UxmlExtension: string := ".uxml"
  const ConvertedSuffix: string := "Converted.cs"

  /**
   * Where the generated class is written: `path.Replace(".uxml", "Converted.cs")`.
   * The match is ordinal, so a path without a lower-case ".uxml" (such as
   * one ending in ".UXML") is its own output path: the class would be
   * written over the asset.
   */
  function OutputPath(path: string): (r: string)
    ensures (forall i: nat :: !OccursAt(UxmlExtension, path, i)) ==> r == path
  {
    assert (forall i: nat :: !OccursAt(UxmlExtension, path, i)) ==> Replace(path, UxmlExtension, ConvertedSuffix) == path by {
      if forall i: nat :: !OccursAt(UxmlExtension, path, i) {
        ReplaceAbsent(path, UxmlExtension, ConvertedSuffix);
      }
    }
    Replace(path, UxmlExtension, ConvertedSuffix)
  }

  /** An asset saved with the upper-case ".UXML" extension: its output path is the asset's own path. */
  lemma UpperCaseExtensionPath(base: string)
    requires !Occurs(UxmlExtension, base)
    ensures OutputPath(base + ".UXML") == base + ".UXML"
  {
    var s := base + ".UXML";
    forall i: nat ensures !OccursAt(UxmlExtension, s, i) {
      if i + 5 <= |base| {
        assert s[i..i + 5] == base[i..i + 5];
        assert !OccursAt(UxmlExtension, base, i);
      } else if i + 5 <= |s| {
        assert s[i + 4] == ".UXML"[i + 4 - |base|] != 'l';
        assert s[i..i + 5][4] != UxmlExtension[4];
      }
    }
  }

  /** A non-empty `base` holding no ".uxml" does not start one in `base + ".uxml"`: its only '.' would be too early. */
  lemma NoExtensionAtStart(base: string)
    requires base != [] && !Occurs(UxmlExtension, base)
    ensures (base + UxmlExtension)[..5] != UxmlExtension
  {
    var s := base + UxmlExtension;
    if |base| >= 5 {
      assert !OccursAt(UxmlExtension, base, 0);
      assert s[..5] == base[0..5];
    } else {
      assert s[..5][|base|] == s[|base|] == '.';
      assert UxmlExtension[|base|] != '.';
    }
  }

  /**
   * For an asset path `base + ".uxml"` where `base` holds no ".uxml", the class
   * is written beside it as `base + "Converted.cs"`.
   */
  lemma {:induction false} OutputPathOfAsset(base: string)
    requires !Occurs(UxmlExtension, base)
    ensures OutputPath(base + UxmlExtension) == base + ConvertedSuffix
    decreases |base|
  {
    var s := base + UxmlExtension;
    if base == [] {
      assert s == UxmlExtension;
      assert s[..5] == UxmlExtension && s[5..] == [];
    } else {
      NoExtensionAtStart(base);
      assert s[1..] == base[1..] + UxmlExtension;
      OccursTail(UxmlExtension, base);
      OutputPathOfAsset(base[1..]);
      assert [base[0]] + base[1..] == base;
    }
  }

  /**
   * `CreateOrUpdateClass`: refuse a null asset; otherwise walk the clone's
   * top-level elements with `RecursiveFill`, append the class text line by
   * line (the `StringBuilder` is the list of lines appended so far) and
   * return the output path and text.
   */
  method CreateOrUpdateClass(uxml: Option<VisualTreeAsset>) returns (g: Generation)
    ensures uxml.None? <==> g == UxmlIsNull
    ensures uxml.Some? ==> g == Written(OutputPath(uxml.value.path),
                                        JoinLines(ClassLines(uxml.value.name, uxml.value.guid, GeneratorFields(uxml.value.elements))),
                                        GeneratorDuplicates(uxml.value.elements))
  {
    if uxml.None? {
      return UxmlIsNull;
    }
    var asset := uxml.value;
    var sb: seq<string> := [];
    sb := sb + ["using KS.UxmlToCsharp;"];
    sb := sb + ["using UnityEngine.UIElements;"];
    sb := sb + [""];
    sb := sb + [ClassDeclaration(asset.name)];
    sb := sb + ["{"];
    sb := sb + [GuidProperty(asset.guid)];

    var fields, log := FillFromElements(asset.elements);

    for i := 0 to |fields|
      invariant sb == Header(asset.name, asset.guid) + seq(i, j requires 0 <= j < i => FieldDeclaration(fields[j]))
    {
      sb := sb + [FieldDeclaration(fields[i])];
    }
    sb := sb + ["    protected override void AssignFields()"];
    sb := sb + ["    {"];
    ghost var declared := sb;
    for i := 0 to |fields|
      invariant sb == declared + seq(i, j requires 0 <= j < i => FieldAssignment(fields[j]))
    {
      sb := sb + [FieldAssignment(fields[i])];
    }
    sb := sb + ["    }"];
    sb := sb + ["}"];

    assert sb == ClassLines(asset.name, asset.guid, fields);
    g := Written(OutputPath(asset.path), JoinLines(sb), log);
  }

  /** The key set of the generated fields is exactly the set of `--csName` values in the tree. */
  lemma GeneratorKeySet(elements: seq<Node>, k: string)
    ensures ContainsKey(GeneratorFields(elements), k) <==> k in NameSet(PreOrderAll(elements))
  {
    var xs := PreOrderAll(elements);
    FirstWinsContains([], TypeCandidates(xs), k);
    assert Keys(TypeCandidates(xs)) == Keys(NameCandidates(xs));
    NameCandidatesKeys(xs, k);
  }

  /**
   * First one wins: the type recorded for a name is that of the first node in
   * pre-order document order carrying it.
   */
  lemma GeneratorFirstWins(elements: seq<Node>, k: string)
    ensures var first := FirstNamed(PreOrderAll(elements), k);
      Get(GeneratorFields(elements), k) == if first.Some? then Some(first.value.typeTag) else None
  {
    var xs := PreOrderAll(elements);
    FirstWinsGet([], TypeCandidates(xs), k);
    GetMapValues(NameCandidates(xs), TypeName, k);
    GetNameCandidates(xs, k);
  }

  lemma {:induction false} GetMapValues<V, W>(d: seq<(string, V)>, f: V -> W, k: string)
    ensures Get(MapValues(d, f), k) == if Get(d, k).Some? then Some(f(Get(d, k).value)) else None
  {
    if d != [] {
      assert MapValues(d, f)[1..] == MapValues(d[1..], f);
      GetMapValues(d[1..], f, k);
    }
  }

  /** The generated entries have pairwise distinct names. */
  lemma GeneratorFieldsDistinct(elements: seq<Node>)
    ensures DistinctKeys(GeneratorFields(elements))
  {
    FirstWinsDistinct([], TypeCandidates(PreOrderAll(elements)));
  }

  /**
   * Duplicates are reported once per extra occurrence: a name carried by m
   * nodes is reported m - 1 times.
   */
  lemma GeneratorDuplicateReports(elements: seq<Node>, k: string)
    ensures var m := multiset(Keys(NameCandidates(PreOrderAll(elements))))[k];
      multiset(GeneratorDuplicates(elements))[k] == if m == 0 then 0 else m - 1
  {
    var xs := PreOrderAll(elements);
    assert Keys(TypeCandidates(xs)) == Keys(NameCandidates(xs));
    DuplicatesPerKey([], TypeCandidates(xs), k);
  }

  /**
   * With pairwise distinct names there is no report and one entry per named
   * node, whatever the shape of the tree; with a repeated name there is at
   * least one report and fewer entries than named nodes.
   */
  lemma GeneratorUniqueNames(elements: seq<Node>)
    ensures var named := NameCandidates(PreOrderAll(elements));
      && (GeneratorDuplicates(elements) == [] <==> DistinctKeys(named))
      && (DistinctKeys(named) <==> |GeneratorFields(elements)| == |named|)
  {
    var xs := PreOrderAll(elements);
    var c := TypeCandidates(xs);
    NoDuplicatesIff([], c);
    FirstWinsCount([], c);
    assert DistinctKeys(c) <==> DistinctKeys(NameCandidates(xs)) by {
      assert Keys(c) == Keys(NameCandidates(xs));
    }
  }
}
