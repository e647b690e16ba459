/** The application tree seen by the Linux accessibility bridge, the records saved from it, and
  how a saved record is resolved again (native/computer-use-linux/runtime.py). */
module AccessibilityTree {
  import opened Wrappers

  datatype Attributes = Attributes(
    role: string,
    name: string,
    automationId: string,
    value: string,
    actions: seq<string>,
    isSelected: bool,
    hasExtents: bool,
    active: bool,
    showing: bool
  )

  /** `children` lists the children that could be fetched, with their own indexes, so the
    indexes ascend but may have gaps. */
  datatype Node = Node(attributes: Attributes, children: seq<Child>)

  datatype Child = Child(index: nat, node: Node)

  type IndexPath = seq<nat>

  ghost predicate Ascending(children: seq<Child>) {
    forall i, j :: 0 <= i < j < |children| ==> children[i].index < children[j].index
  }

  ghost predicate WellFormed(node: Node) {
    Ascending(node.children) && forall c :: c in node.children ==> WellFormed(c.node)
  }

  /** `dict(children(node)).get(index)`: a later entry would win. */
  function ChildAt(children: seq<Child>, index: nat): Option<Node> {
    if children == [] then None
    else
      var last := children[|children| - 1];
      if last.index == index then Some(last.node) else ChildAt(children[..|children| - 1], index)
  }

  function NodeAt(node: Node, path: IndexPath): Option<Node>
    decreases |path|
  {
    if path == [] then Some(node)
    else
      match ChildAt(node.children, path[0])
      case None => None
      case Some(child) => NodeAt(child, path[1..])
  }

  lemma {:induction false} ChildAtFinds(children: seq<Child>, c: Child)
    requires Ascending(children) && c in children
    ensures ChildAt(children, c.index) == Some(c.node)
  {
    var last := children[|children| - 1];
    var front := children[..|children| - 1];
    assert children == front + [last];
    if c != last {
      var i :| 0 <= i < |front| && front[i] == c;
      assert children[i].index < children[|children| - 1].index;
      ChildAtFinds(front, c);
    }
  }

  lemma {:induction false} ChildAtIsChild(children: seq<Child>, index: nat)
    ensures match ChildAt(children, index)
            case None => forall c :: c in children ==> c.index != index
            case Some(node) => Child(index, node) in children
  {
    if children != [] {
      assert children == children[..|children| - 1] + [children[|children| - 1]];
      ChildAtIsChild(children[..|children| - 1], index);
    }
  }

  lemma {:induction false} NodeAtConcat(node: Node, p: IndexPath, via: Node, q: IndexPath)
    requires NodeAt(node, p) == Some(via)
    ensures NodeAt(node, p + q) == NodeAt(via, q)
    decreases |p|
  {
    if p == [] {
      assert p + q == q;
    } else {
      NodeAtConcat(ChildAt(node.children, p[0]).value, p[1..], via, q);
      assert (p + q)[1..] == p[1..] + q;
    }
  }

  /** Following one more child index of a well-formed tree. */
  lemma NodeAtChild(app: Node, path: IndexPath, parent: Node, c: Child)
    requires NodeAt(app, path) == Some(parent) && WellFormed(parent) && c in parent.children
    ensures NodeAt(app, path + [c.index]) == Some(c.node)
  {
    ChildAtFinds(parent.children, c);
    NodeAtConcat(app, path, parent, [c.index]);
  }

  /** One step of the path after the other leads to a child of that index. */
  ghost predicate LeadsTo(node: Node, path: IndexPath, found: Node)
    decreases |path|
  {
    if path == [] then found == node
    else exists c :: c in node.children && c.index == path[0] && LeadsTo(c.node, path[1..], found)
  }

  /** A path is followed exactly where each of its indexes names a child, by index and not by
    position. */
  lemma {:induction false} PathIsFollowed(node: Node, path: IndexPath, found: Node)
    requires WellFormed(node)
    ensures NodeAt(node, path) == Some(found) <==> LeadsTo(node, path, found)
    decreases |path|
  {
    if path != [] {
      ChildAtIsChild(node.children, path[0]);
      forall c | c in node.children && c.index == path[0]
        ensures ChildAt(node.children, path[0]) == Some(c.node)
        ensures NodeAt(c.node, path[1..]) == Some(found) <==> LeadsTo(c.node, path[1..], found)
      {
        ChildAtFinds(node.children, c);
        PathIsFollowed(c.node, path[1..], found);
      }
    }
  }

  method FindByPath(app: Node, path: IndexPath) returns (found: Option<Node>)
    ensures found == NodeAt(app, path)
  {
    var node := app;
    assert path[0..] == path;
    for i := 0 to |path|
      invariant NodeAt(node, path[i..]) == NodeAt(app, path)
    {
      assert path[i..][1..] == path[i + 1..];
      var child := ChildAt(node.children, path[i]);
      if child.None? {
        return None;
      }
      node := child.value;
    }
    return Some(node);
  }

  // ----- Saved records

  datatype Record = Record(
    index: nat,
    runtimeId: IndexPath,
    automationId: string,
    name: string,
    controlType: string,
    value: string,
    isSelected: bool,
    actions: seq<string>
  )

  function RecordOf(node: Node, index: nat, path: IndexPath): Record {
    var a := node.attributes;
    Record(index, path, a.automationId, a.name, a.role, a.value, a.isSelected, a.actions)
  }

  predicate SameElementSignature(node: Node, saved: Record) {
    && node.attributes.role == saved.controlType
    && node.attributes.name == saved.name
    && node.attributes.automationId == saved.automationId
    && node.attributes.actions == saved.actions
  }

  /** A record resolves to the node at its path, and only while the signature still matches. */
  function Lookup(app: Node, saved: Option<Record>): Option<Node> {
    if saved.None? then None
    else
      match NodeAt(app, saved.value.runtimeId)
      case None => None
      case Some(node) => if SameElementSignature(node, saved.value) then Some(node) else None
  }

  method FindElement(app: Node, saved: Option<Record>) returns (found: Option<Node>)
    ensures found == Lookup(app, saved)
  {
    if saved.None? {
      return None;
    }
    var byPath := FindByPath(app, saved.value.runtimeId);
    if byPath.Some? && SameElementSignature(byPath.value, saved.value) {
      return byPath;
    }
    return None;
  }

  /** On any tree, changed or not, a lookup never returns a node whose role, name, identifier or
    actions differ from what was saved, nor one at another path. */
  lemma LookupSound(app: Node, saved: Record, node: Node)
    requires Lookup(app, Some(saved)) == Some(node)
    ensures RecordOf(node, saved.index, saved.runtimeId).(value := saved.value, isSelected := saved.isSelected) == saved
    ensures NodeAt(app, saved.runtimeId) == Some(node)
  {
  }

  // ----- Choosing the window

  datatype WindowError = NoWindow | WindowIdUnsupported | WindowNotFound

  type RoleTest = string -> bool

  function WindowsFor(isWindowRole: RoleTest, children: seq<Child>): seq<Child> {
    if children == [] then []
    else
      var c := children[0];
      (if c.node.attributes.hasExtents || isWindowRole(c.node.attributes.role) then [c] else [])
      + WindowsFor(isWindowRole, children[1..])
  }

  lemma {:induction false} WindowsAreChildren(isWindowRole: RoleTest, children: seq<Child>, c: Child)
    ensures c in WindowsFor(isWindowRole, children) <==>
      c in children && (c.node.attributes.hasExtents || isWindowRole(c.node.attributes.role))
  {
    if children != [] {
      WindowsAreChildren(isWindowRole, children[1..], c);
      assert children == [children[0]] + children[1..];
    }
  }

  type WindowTest = Child -> bool

  /** The first window that passes a test. */
  function FirstWindow(windows: seq<Child>, test: WindowTest): Option<Child> {
    if windows == [] then None
    else if test(windows[0]) then Some(windows[0])
    else FirstWindow(windows[1..], test)
  }

  predicate HasIndex(c: Child, index: int) {
    c.index == index
  }

  predicate IsActive(c: Child) {
    c.node.attributes.active
  }

  predicate IsShowing(c: Child) {
    c.node.attributes.showing
  }

  /** A requested index picks that window; otherwise the first active one, else the first
    showing one, else the first. */
  function ChosenWindow(isWindowRole: RoleTest, app: Node, windowId: Option<string>, windowIndex: Option<int>)
    : Result<Child, WindowError>
  {
    var windows := WindowsFor(isWindowRole, app.children);
    if windows == [] then Err(NoWindow)
    else if windowId.Some? then Err(WindowIdUnsupported)
    else if windowIndex.Some? then
      match FirstWindow(windows, w => HasIndex(w, windowIndex.value))
      case None => Err(WindowNotFound)
      case Some(c) => Ok(c)
    else
      match FirstWindow(windows, IsActive)
      case Some(c) => Ok(c)
      case None =>
        match FirstWindow(windows, IsShowing)
        case Some(c) => Ok(c)
        case None => Ok(windows[0])
  }

  method FindWindow(windows: seq<Child>, test: WindowTest) returns (c: Option<Child>)
    ensures c == FirstWindow(windows, test)
  {
    assert windows[0..] == windows;
    for i := 0 to |windows|
      invariant FirstWindow(windows[i..], test) == FirstWindow(windows, test)
    {
      assert windows[i..][1..] == windows[i + 1..];
      if test(windows[i]) {
        return Some(windows[i]);
      }
    }
    return None;
  }

  method ChooseWindow(isWindowRole: RoleTest, app: Node, windowId: Option<string>, windowIndex: Option<int>)
    returns (r: Result<Child, WindowError>)
    ensures r == ChosenWindow(isWindowRole, app, windowId, windowIndex)
  {
    var windows := WindowsFor(isWindowRole, app.children);
    if windows == [] {
      return Err(NoWindow);
    }
    if windowId.Some? {
      return Err(WindowIdUnsupported);
    }
    if windowIndex.Some? {
      var item := FindWindow(windows, w => HasIndex(w, windowIndex.value));
      return if item.Some? then Ok(item.value) else Err(WindowNotFound);
    }
    var item := FindWindow(windows, IsActive);
    if item.Some? {
      return Ok(item.value);
    }
    item := FindWindow(windows, IsShowing);
    if item.Some? {
      return Ok(item.value);
    }
    return Ok(windows[0]);
  }

  /** What a window is chosen for. */
  datatype Wanted = Any | Indexed(index: int) | Active | Showing

  predicate Serves(w: Child, wanted: Wanted) {
    match wanted
    case Any => true
    case Indexed(index) => w.index == index
    case Active => w.node.attributes.active
    case Showing => w.node.attributes.showing
  }

  /** A child is a window if it has extents or a window's role. */
  predicate IsWindow(isWindowRole: RoleTest, w: Child) {
    w.node.attributes.hasExtents || isWindowRole(w.node.attributes.role)
  }

  ghost predicate NoWindowFor(isWindowRole: RoleTest, children: seq<Child>, wanted: Wanted) {
    forall w :: w in children && IsWindow(isWindowRole, w) ==> !Serves(w, wanted)
  }

  /** `c` is the first of the children that is a window and serves. */
  ghost predicate FirstWindowFor(isWindowRole: RoleTest, children: seq<Child>, wanted: Wanted, c: Child) {
    exists i :: 0 <= i < |children| && children[i] == c && IsWindow(isWindowRole, c) && Serves(c, wanted)
      && NoWindowFor(isWindowRole, children[..i], wanted)
  }

  lemma {:induction false} FirstAmongChildren(
    isWindowRole: RoleTest, children: seq<Child>, test: WindowTest, wanted: Wanted)
    requires forall w :: test(w) <==> Serves(w, wanted)
    ensures
      match FirstWindow(WindowsFor(isWindowRole, children), test)
      case None => NoWindowFor(isWindowRole, children, wanted)
      case Some(c) => FirstWindowFor(isWindowRole, children, wanted, c) && !NoWindowFor(isWindowRole, children, wanted)
  {
    if children != [] {
      var c, rest := children[0], children[1..];
      assert children == [c] + rest;
      var windows := WindowsFor(isWindowRole, rest);
      FirstAmongChildren(isWindowRole, rest, test, wanted);
      if IsWindow(isWindowRole, c) {
        assert ([c] + windows)[1..] == windows;
      } else {
        assert [] + windows == windows;
      }
      if IsWindow(isWindowRole, c) && test(c) {
        assert children[..0] == [];
        assert FirstWindowFor(isWindowRole, children, wanted, c);
      } else if FirstWindow(windows, test).Some? {
        FirstIsLater(isWindowRole, children, wanted, FirstWindow(windows, test).value);
      }
    }
  }

  lemma FirstIsLater(isWindowRole: RoleTest, children: seq<Child>, wanted: Wanted, c: Child)
    requires children != [] && FirstWindowFor(isWindowRole, children[1..], wanted, c)
    requires NoWindowFor(isWindowRole, [children[0]], wanted)
    ensures FirstWindowFor(isWindowRole, children, wanted, c)
  {
    var rest := children[1..];
    var i :| 0 <= i < |rest| && rest[i] == c && IsWindow(isWindowRole, c) && Serves(c, wanted)
      && NoWindowFor(isWindowRole, rest[..i], wanted);
    assert children[i + 1] == c && children[..i + 1] == [children[0]] + rest[..i];
  }

  lemma AnyIsFirst(windows: seq<Child>)
    ensures FirstWindow(windows, w => true) == if windows == [] then None else Some(windows[0])
  {
  }

  /** The choice is the first window with the requested index; without a request the first active
    one, else the first showing one, else the first.  Each error has exactly its own cause. */
  lemma ChosenWindowMeans(isWindowRole: RoleTest, app: Node, windowId: Option<string>, windowIndex: Option<int>)
    ensures
      var children := app.children;
      match ChosenWindow(isWindowRole, app, windowId, windowIndex)
      case Ok(c) =>
        && windowId.None? && c in children
        && (if windowIndex.Some? then FirstWindowFor(isWindowRole, children, Indexed(windowIndex.value), c)
            else if !NoWindowFor(isWindowRole, children, Active) then FirstWindowFor(isWindowRole, children, Active, c)
            else if !NoWindowFor(isWindowRole, children, Showing) then
              FirstWindowFor(isWindowRole, children, Showing, c)
            else FirstWindowFor(isWindowRole, children, Any, c))
      case Err(NoWindow) => NoWindowFor(isWindowRole, children, Any)
      case Err(WindowIdUnsupported) => !NoWindowFor(isWindowRole, children, Any) && windowId.Some?
      case Err(WindowNotFound) =>
        && !NoWindowFor(isWindowRole, children, Any) && windowId.None? && windowIndex.Some?
        && NoWindowFor(isWindowRole, children, Indexed(windowIndex.value))
  {
    var children := app.children;
    AnyIsFirst(WindowsFor(isWindowRole, children));
    FirstAmongChildren(isWindowRole, children, w => true, Any);
    if windowIndex.Some? {
      FirstAmongChildren(isWindowRole, children, w => HasIndex(w, windowIndex.value), Indexed(windowIndex.value));
    }
    FirstAmongChildren(isWindowRole, children, IsActive, Active);
    FirstAmongChildren(isWindowRole, children, IsShowing, Showing);
  }
}
