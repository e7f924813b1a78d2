/*
 * Model of EditorUIPackageBuilder (Tools/UIEditor_v2/Classes/UIControls/EditorUIPackageBuilder.cpp):
 * the object that a UI package loader drives while it reads a package. The
 * builder keeps the package being built, a stack of the controls currently
 * open, and the object and properties section that incoming properties are
 * written to.
 *
 * The loader, the object factory and the insides of the node classes belong
 * to other files; they appear here as small classes with only the fields the
 * builder touches, and the loader's re-entrant run appears as the package it
 * produced.
 */
module PackageBuilder {

  /** Introspection flags of a member; only I_EDIT matters to the builder. */
  datatype MemberFlag = ISave | IView | IEdit

  datatype Member = Member(name: string, flags: set<MemberFlag>)

  /** A property value; TypeNone is VariantType::TYPE_NONE. */
  datatype VariantType = TypeNone | Typed(typeName: string, text: string)

  class UIPackage {
    const path: string

    constructor (path: string)
      ensures this.path == path
    {
      this.path := path;
    }
  }

  class UIControl {
    const className: string
    var customClassName: string
    var name: string

    constructor (className: string)
      ensures this.className == className && customClassName == "" && name == ""
    {
      this.className := className;
      customClassName := "";
      name := "";
    }
  }

  class UIControlBackground {
    constructor ()
    {
    }
  }

  class ValueProperty {
    const member: Member
    var value: VariantType

    constructor (member: Member, value: VariantType)
      ensures this.member == member && this.value == value
    {
      this.member := member;
      this.value := value;
    }
  }

  datatype SectionKind = ControlSection | BackgroundSection | InternalControlSection

  /**
   * A properties section. Background and internal-control sections own an
   * object (the background, the internal control) that is created on demand.
   */
  class PropertiesSection {
    const kind: SectionKind
    const properties: map<Member, ValueProperty>
    var attached: object?

    constructor (kind: SectionKind, properties: map<Member, ValueProperty>)
      ensures this.kind == kind && this.properties == properties && attached == null
    {
      this.kind := kind;
      this.properties := properties;
      attached := null;
    }

    function FindProperty(member: Member): (r: ValueProperty?)
      ensures r != null <==> member in properties
      ensures r != null ==> r == properties[member]
    {
      if member in properties then properties[member] else null
    }

    /** CreateControlBackground / CreateInternalControl. */
    method CreateAttached()
      modifies this
      ensures attached != null && fresh(attached)
    {
      if kind == InternalControlSection {
        var internal := new UIControl("UIControl");
        attached := internal;
      } else {
        var bg := new UIControlBackground();
        attached := bg;
      }
    }
  }

  /** A control in the package hierarchy with its properties root. */
  class ControlNode {
    const control: UIControl
    var children: seq<ControlNode>
    const controlSections: map<string, PropertiesSection>
    const bgSections: map<int, PropertiesSection>
    const internalSections: map<int, PropertiesSection>

    constructor (control: UIControl, controlSections: map<string, PropertiesSection>,
                 bgSections: map<int, PropertiesSection>, internalSections: map<int, PropertiesSection>)
      ensures this.control == control && children == []
      ensures this.controlSections == controlSections && this.bgSections == bgSections
      ensures this.internalSections == internalSections
    {
      this.control := control;
      children := [];
      this.controlSections := controlSections;
      this.bgSections := bgSections;
      this.internalSections := internalSections;
    }

    /** The first direct child whose control has this name. */
    function FindByName(name: string): (r: ControlNode?)
      reads this, set c | c in children :: c.control
      ensures r != null ==> r in children && r.control.name == name
      ensures r == null ==> forall i :: 0 <= i < |children| ==> children[i].control.name != name
    {
      FirstNamed(children, name)
    }
  }

  function FirstNamed(nodes: seq<ControlNode>, name: string): (r: ControlNode?)
    reads set c | c in nodes :: c.control
    ensures r != null ==> r in nodes && r.control.name == name
    ensures r == null ==> forall i :: 0 <= i < |nodes| ==> nodes[i].control.name != name
  {
    if nodes == [] then null
    else if nodes[0].control.name == name then nodes[0]
    else FirstNamed(nodes[1..], name)
  }

  class PackageControlsNode {
    var name: string
    var nodes: seq<ControlNode>

    constructor (name: string)
      ensures this.name == name && nodes == []
    {
      this.name := name;
      nodes := [];
    }
  }

  /**
   * A package: its controls and the controls nodes of the packages it imports
   * (the ImportedPackagesNode's list). Its name stands for the name derived
   * from the package's file path.
   */
  class PackageNode {
    const package: UIPackage
    const name: string
    const controls: PackageControlsNode
    var imported: seq<PackageControlsNode>

    constructor (package: UIPackage)
      ensures this.package == package && name == package.path
      ensures fresh(controls) && controls.nodes == [] && imported == []
    {
      this.package := package;
      name := package.path;
      controls := new PackageControlsNode(package.path);
      imported := [];
    }
  }

  /** Following a path of names from a node, one FindByName per name; null once a name is missing. */
  ghost function Resolve(c: ControlNode, names: seq<string>): ControlNode?
    reads *
    decreases |names|
  {
    if names == [] then c
    else
      var next := c.FindByName(names[0]);
      if next == null then null else Resolve(next, names[1..])
  }

  /** b is reached from a through the nodes of path, each a child of the previous one. */
  ghost predicate Descends(a: ControlNode, path: seq<ControlNode>, b: ControlNode)
    reads a, set x | x in path
  {
    if path == [] then a == b
    else path[0] in a.children && path[|path| - 1] == b &&
         forall i :: 0 <= i < |path| - 1 ==> path[i + 1] in path[i].children
  }

  /** The nodes passed through on the way from c to Resolve(c, names), excluding c. */
  ghost function ResolvePath(c: ControlNode, names: seq<string>): seq<ControlNode>
    reads *
    decreases |names|
  {
    if names == [] then []
    else
      var next := c.FindByName(names[0]);
      if next == null then [] else [next] + ResolvePath(next, names[1..])
  }

  lemma {:induction false} ResolveDescends(c: ControlNode, names: seq<string>)
    requires Resolve(c, names) != null
    ensures Descends(c, ResolvePath(c, names), Resolve(c, names))
    decreases |names|
  {
    if names != [] {
      var next := c.FindByName(names[0]);
      ResolveDescends(next, names[1..]);
      assert ResolvePath(c, names)[1..] == ResolvePath(next, names[1..]);
    }
  }

  class EditorUIPackageBuilder {
    var packageNode: PackageNode?
    var controlsStack: seq<ControlNode>
    var currentObject: object?
    var currentSection: PropertiesSection?
    /** For each open control above the bottom one, the nodes leading to it from the one below. */
    ghost var stackPaths: seq<seq<ControlNode>>

    /**
     * The open controls form a chain down the package: the bottom one is a
     * top-level control of the package and each one lies below the one under it.
     */
    ghost predicate Valid()
      reads *
    {
      (|controlsStack| > 0 ==> packageNode != null && controlsStack[0] in packageNode.controls.nodes) &&
      |stackPaths| == (if controlsStack == [] then 0 else |controlsStack| - 1) &&
      forall i :: 0 <= i < |stackPaths| ==> Descends(controlsStack[i], stackPaths[i], controlsStack[i + 1])
    }

    constructor ()
      ensures packageNode == null && controlsStack == [] && currentObject == null && currentSection == null
      ensures Valid()
    {
      packageNode := null;
      controlsStack := [];
      currentObject := null;
      currentSection := null;
      stackPaths := [];
    }

    /** Opens a new package; no package may be open. */
    method BeginPackage(packagePath: string) returns (package: UIPackage)
      requires packageNode == null
      modifies this
      ensures fresh(package) && package.path == packagePath
      ensures packageNode != null && fresh(packageNode) && packageNode.package == package
      ensures packageNode.controls.nodes == [] && packageNode.imported == []
      ensures controlsStack == old(controlsStack) && stackPaths == old(stackPaths)
      ensures currentObject == old(currentObject) && currentSection == old(currentSection)
      ensures old(Valid()) ==> controlsStack == [] && Valid()
    {
      package := new UIPackage(packagePath);
      packageNode := new PackageNode(package);
    }

    /** Closing a package only asserts that one is open. */
    method EndPackage()
      requires packageNode != null
      ensures packageNode == old(packageNode) && controlsStack == old(controlsStack)
      ensures currentObject == old(currentObject) && currentSection == old(currentSection)
    {
    }

    /**
     * Builds an imported package with the builder's state cleared, files its
     * controls node (renamed after the package) under the current package's
     * imports and puts the saved state back. `loaded` is the package node the
     * loader's nested run produced.
     */
    method ProcessImportedPackage(packagePath: string, loaded: PackageNode) returns (result: UIPackage)
      requires packageNode != null
      modifies this, packageNode, loaded.controls
      ensures packageNode == old(packageNode) && controlsStack == old(controlsStack)
      ensures stackPaths == old(stackPaths) && (old(Valid()) ==> Valid())
      ensures currentObject == old(currentObject) && currentSection == old(currentSection)
      ensures packageNode.imported == old(packageNode.imported) + [loaded.controls]
      ensures loaded.controls.name == loaded.name && loaded.controls.nodes == old(loaded.controls.nodes)
      ensures result == loaded.package
    {
      var prevPackageNode := packageNode;
      var prevControlsStack := controlsStack;
      var prevObj := currentObject;
      var prevSect := currentSection;

      packageNode := null;
      controlsStack := [];
      currentObject := null;
      currentSection := null;

      // the loader's nested run leaves the package it built in packageNode
      packageNode := loaded;
      result := loaded.package;
      var controlsNode := packageNode.controls;
      controlsNode.name := packageNode.name;

      prevPackageNode.imported := prevPackageNode.imported + [controlsNode];

      packageNode := prevPackageNode;
      controlsStack := prevControlsStack;
      currentObject := prevObj;
      currentSection := prevSect;
    }

    /**
     * Attaches a new node under the open control, or at the top of the package
     * when none is open, and opens it.
     */
    method AddControlNode(node: ControlNode)
      requires Valid()
      requires controlsStack == [] ==> packageNode != null
      modifies if controlsStack == [] then {packageNode.controls} else {controlsStack[|controlsStack| - 1]}
      modifies this
      ensures Valid()
      ensures controlsStack == old(controlsStack) + [node]
      ensures old(controlsStack) == [] ==> packageNode.controls.nodes == old(packageNode.controls.nodes) + [node]
      ensures old(controlsStack) != [] ==>
                var top := old(controlsStack)[|old(controlsStack)| - 1];
                top.children == old(top.children) + [node]
      ensures packageNode == old(packageNode)
      ensures currentObject == old(currentObject) && currentSection == old(currentSection)
    {
      if controlsStack == [] {
        packageNode.controls.nodes := packageNode.controls.nodes + [node];
      } else {
        var top := controlsStack[|controlsStack| - 1];
        top.children := top.children + [node];
        forall i | 0 <= i < |stackPaths|
          ensures Descends(controlsStack[i], stackPaths[i], controlsStack[i + 1])
        {
          // appending to top's children keeps every child link of the chain
          var path := stackPaths[i];
          assert old(Descends(controlsStack[i], path, controlsStack[i + 1]));
          if path != [] {
            assert old(path[0] in controlsStack[i].children);
            forall k | 0 <= k < |path| - 1
              ensures path[k + 1] in path[k].children
            {
              assert old(path[k + 1] in path[k].children);
            }
          }
        }
        assert Descends(top, [node], node);
        stackPaths := stackPaths + [[node]];
      }
      controlsStack := controlsStack + [node];
    }

    /** Creates a control of the class and adds its node. `sections` stand for the node's properties root. */
    method BeginControlWithClass(className: string, controlSections: map<string, PropertiesSection>,
                                 bgSections: map<int, PropertiesSection>, internalSections: map<int, PropertiesSection>)
      returns (control: UIControl)
      requires Valid()
      requires controlsStack == [] ==> packageNode != null
      modifies if controlsStack == [] then {packageNode.controls} else {controlsStack[|controlsStack| - 1]}
      modifies this
      ensures Valid()
      ensures fresh(control) && control.className == className
      ensures |controlsStack| == |old(controlsStack)| + 1 && controlsStack[..|old(controlsStack)|] == old(controlsStack)
      ensures controlsStack[|controlsStack| - 1].control == control
      ensures old(controlsStack) == [] ==>
                packageNode.controls.nodes == old(packageNode.controls.nodes) + [controlsStack[|controlsStack| - 1]]
      ensures old(controlsStack) != [] ==>
                var top := old(controlsStack)[|old(controlsStack)| - 1];
                top.children == old(top.children) + [controlsStack[|controlsStack| - 1]]
      ensures packageNode == old(packageNode)
      ensures currentObject == old(currentObject) && currentSection == old(currentSection)
    {
      control := new UIControl(className);
      var node := new ControlNode(control, controlSections, bgSections, internalSections);
      AddControlNode(node);
    }

    /** As BeginControlWithClass, recording the custom class name on the control. */
    method BeginControlWithCustomClass(customClassName: string, className: string,
                                       controlSections: map<string, PropertiesSection>,
                                       bgSections: map<int, PropertiesSection>, internalSections: map<int, PropertiesSection>)
      returns (control: UIControl)
      requires Valid()
      requires controlsStack == [] ==> packageNode != null
      modifies if controlsStack == [] then {packageNode.controls} else {controlsStack[|controlsStack| - 1]}
      modifies this
      ensures Valid()
      ensures fresh(control) && control.className == className && control.customClassName == customClassName
      ensures |controlsStack| == |old(controlsStack)| + 1 && controlsStack[..|old(controlsStack)|] == old(controlsStack)
      ensures controlsStack[|controlsStack| - 1].control == control
      ensures old(controlsStack) == [] ==>
                packageNode.controls.nodes == old(packageNode.controls.nodes) + [controlsStack[|controlsStack| - 1]]
      ensures old(controlsStack) != [] ==>
                var top := old(controlsStack)[|old(controlsStack)| - 1];
                top.children == old(top.children) + [controlsStack[|controlsStack| - 1]]
      ensures packageNode == old(packageNode)
      ensures currentObject == old(currentObject) && currentSection == old(currentSection)
    {
      control := new UIControl(className);
      control.customClassName := customClassName;
      var node := new ControlNode(control, controlSections, bgSections, internalSections);
      AddControlNode(node);
    }

    /**
     * Opens an existing control found by following `controlNames` (the path
     * split at '/') from the open control. The source asserts that one is open
     * and that the path resolves.
     */
    method BeginControlWithPath(controlNames: seq<string>) returns (control: UIControl)
      requires Valid()
      requires controlsStack != []
      requires Resolve(controlsStack[|controlsStack| - 1], controlNames) != null
      modifies this
      ensures Valid()
      ensures var found := old(Resolve(controlsStack[|controlsStack| - 1], controlNames));
              controlsStack == old(controlsStack) + [found] && control == found.control
      ensures packageNode == old(packageNode)
      ensures currentObject == old(currentObject) && currentSection == old(currentSection)
    {
      var top := controlsStack[|controlsStack| - 1];
      var node: ControlNode? := top;
      var i := 0;
      while i < |controlNames|
        invariant 0 <= i <= |controlNames|
        invariant node != null && Resolve(top, controlNames) == Resolve(node, controlNames[i..])
      {
        assert controlNames[i..][1..] == controlNames[i + 1..];
        node := node.FindByName(controlNames[i]);
        if node == null {
          break;
        }
        i := i + 1;
      }
      ResolveDescends(top, controlNames);
      stackPaths := stackPaths + [ResolvePath(top, controlNames)];
      controlsStack := controlsStack + [node];
      control := node.control;
    }

    /** Closes the open control. */
    method EndControl()
      requires Valid()
      requires controlsStack != []
      modifies this
      ensures Valid()
      ensures controlsStack == old(controlsStack)[..|old(controlsStack)| - 1]
      ensures packageNode == old(packageNode)
      ensures currentObject == old(currentObject) && currentSection == old(currentSection)
    {
      controlsStack := controlsStack[..|controlsStack| - 1];
      stackPaths := if stackPaths == [] then [] else stackPaths[..|stackPaths| - 1];
    }

    /** Directs properties to the named control section of the open control and to its control. */
    method BeginControlPropretiesSection(name: string)
      requires controlsStack != []
      modifies this
      ensures packageNode == old(packageNode) && controlsStack == old(controlsStack)
      ensures stackPaths == old(stackPaths) && (old(Valid()) ==> Valid())
      ensures var top := controlsStack[|controlsStack| - 1];
              currentSection == (if name in top.controlSections then top.controlSections[name] else null) &&
              currentObject == top.control
    {
      var top := controlsStack[|controlsStack| - 1];
      currentSection := if name in top.controlSections then top.controlSections[name] else null;
      currentObject := top.control;
    }

    method EndControlPropertiesSection()
      modifies this
      ensures currentSection == null && currentObject == null
      ensures packageNode == old(packageNode) && controlsStack == old(controlsStack)
      ensures stackPaths == old(stackPaths) && (old(Valid()) ==> Valid())
    {
      currentSection := null;
      currentObject := null;
    }

    /**
     * Directs properties to a background section of the open control, creating
     * its background if needed. Without such a section, or when the section has
     * no properties, nothing changes and null is returned.
     */
    method BeginBgPropertiesSection(index: int, sectionHasProperties: bool) returns (bg: object?)
      requires controlsStack != []
      modifies this
      modifies if index in controlsStack[|controlsStack| - 1].bgSections
               then {controlsStack[|controlsStack| - 1].bgSections[index]} else {}
      ensures packageNode == old(packageNode) && controlsStack == old(controlsStack)
      ensures stackPaths == old(stackPaths) && (old(Valid()) ==> Valid())
      ensures var top := controlsStack[|controlsStack| - 1];
              if index in top.bgSections && sectionHasProperties then
                var section := top.bgSections[index];
                bg != null && bg == section.attached && currentObject == bg && currentSection == section &&
                (old(top.bgSections[index].attached) != null ==> section.attached == old(top.bgSections[index].attached)) &&
                (old(top.bgSections[index].attached) == null ==> fresh(bg))
              else
                bg == null && currentObject == old(currentObject) && currentSection == old(currentSection)
    {
      var node := controlsStack[|controlsStack| - 1];
      var section := if index in node.bgSections then node.bgSections[index] else null;
      bg := null;
      if section != null && sectionHasProperties {
        if section.attached == null {
          section.CreateAttached();
        }
        if section.attached != null {
          currentObject := section.attached;
          currentSection := section;
          bg := section.attached;
        }
      }
    }

    method EndBgPropertiesSection()
      modifies this
      ensures currentSection == null && currentObject == null
      ensures packageNode == old(packageNode) && controlsStack == old(controlsStack)
      ensures stackPaths == old(stackPaths) && (old(Valid()) ==> Valid())
    {
      currentSection := null;
      currentObject := null;
    }

    /** As BeginBgPropertiesSection for an internal-control section. */
    method BeginInternalControlSection(index: int, sectionHasProperties: bool) returns (internal: object?)
      requires controlsStack != []
      modifies this
      modifies if index in controlsStack[|controlsStack| - 1].internalSections
               then {controlsStack[|controlsStack| - 1].internalSections[index]} else {}
      ensures packageNode == old(packageNode) && controlsStack == old(controlsStack)
      ensures stackPaths == old(stackPaths) && (old(Valid()) ==> Valid())
      ensures var top := controlsStack[|controlsStack| - 1];
              if index in top.internalSections && sectionHasProperties then
                var section := top.internalSections[index];
                internal != null && internal == section.attached && currentObject == internal &&
                currentSection == section &&
                (old(top.internalSections[index].attached) != null ==> section.attached == old(top.internalSections[index].attached)) &&
                (old(top.internalSections[index].attached) == null ==> fresh(internal))
              else
                internal == null && currentObject == old(currentObject) && currentSection == old(currentSection)
    {
      var node := controlsStack[|controlsStack| - 1];
      var section := if index in node.internalSections then node.internalSections[index] else null;
      internal := null;
      if section != null && sectionHasProperties {
        if section.attached == null {
          section.CreateAttached();
        }
        if section.attached != null {
          currentObject := section.attached;
          currentSection := section;
          internal := section.attached;
        }
      }
    }

    method EndInternalControlSection()
      modifies this
      ensures currentSection == null && currentObject == null
      ensures packageNode == old(packageNode) && controlsStack == old(controlsStack)
      ensures stackPaths == old(stackPaths) && (old(Valid()) ==> Valid())
    {
      currentSection := null;
      currentObject := null;
    }

    /** Whether ProcessProperty writes the value: every one of the source's four conditions. */
    predicate WritesProperty(member: Member, value: VariantType)
      reads this
    {
      currentObject != null && currentSection != null && IEdit in member.flags &&
      member in currentSection.properties && value != TypeNone
    }

    /** Writes an editable member's value into the current section's property. */
    method ProcessProperty(member: Member, value: VariantType)
      modifies if currentSection != null && member in currentSection.properties
               then {currentSection.properties[member]} else {}
      ensures WritesProperty(member, value) ==> currentSection.properties[member].value == value
      ensures !WritesProperty(member, value) && currentSection != null && member in currentSection.properties ==>
                currentSection.properties[member].value == old(currentSection.properties[member].value)
    {
      if currentObject != null && currentSection != null && IEdit in member.flags {
        var property := currentSection.FindProperty(member);
        if property != null && value != TypeNone {
          property.value := value;
        }
      }
    }
  }
}
