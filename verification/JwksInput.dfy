/**
 * The bounded copy of trusted object input: an explicit stack of frames over a graph of objects,
 * with every byte of the compact JSON encoding charged as it becomes known.
 */
module JwksInput {
  import opened Basics
  import Utf8

  type Ref = nat

  /** What a number prints as; never empty. */
  type Printed = b: seq<Byte> | b != [] witness [48]

  /** A JavaScript value; accessors, holes and values JSON does not have are unusable. */
  datatype Value =
    | Null
    | Boolean(flag: bool)
    | Number(finite: bool, digits: Printed)
    | Str(text: Text)
    | Object(ref: Ref)
    | Unusable

  /** Arrays, plain objects with their own enumerable properties in order, and everything else. */
  datatype Node = ArrayNode(items: seq<Value>) | ObjectNode(keys: seq<Text>, values: seq<Value>) | Foreign

  type Graph = map<Ref, Node>

  function NodeOf(graph: Graph, r: Ref): Node {
    if r in graph && (graph[r].ObjectNode? ==> |graph[r].keys| == |graph[r].values|) then graph[r] else Foreign
  }

  function Kids(node: Node): seq<Value> {
    match node
    case ArrayNode(items) => items
    case ObjectNode(_, values) => values
    case Foreign => []
  }

  /** The keys of an object; an array has none. */
  function Keys(node: Node): Option<seq<Text>> { if node.ObjectNode? then Some(node.keys) else None }

  // ---------------------------------------------------------------- JSON trees and their encoding

  datatype Tree = Leaf(value: Value) | Branch(keys: Option<seq<Text>>, kids: seq<Tree>)

  predicate Scalar(v: Value) { v.Null? || v.Boolean? || v.Str? || (v.Number? && v.finite) }

  /** The tree is what the value looks like when every reference is followed. */
  ghost predicate Unfolds(graph: Graph, v: Value, t: Tree)
    decreases t
  {
    match t
    case Leaf(w) => v == w && Scalar(v)
    case Branch(keys, kids) =>
      && v.Object?
      && var node := NodeOf(graph, v.ref);
         !node.Foreign? && keys == Keys(node) && |kids| == |Kids(node)|
         && forall i | 0 <= i < |kids| :: Unfolds(graph, Kids(node)[i], kids[i])
  }

  lemma {:induction false} UnfoldsOnce(graph: Graph, v: Value, t: Tree, u: Tree)
    requires Unfolds(graph, v, t) && Unfolds(graph, v, u)
    ensures t == u
    decreases t
  {
    if t.Branch? {
      var kids := Kids(NodeOf(graph, v.ref));
      forall i | 0 <= i < |t.kids| ensures t.kids[i] == u.kids[i] {
        UnfoldsOnce(graph, kids[i], t.kids[i], u.kids[i]);
      }
    }
  }

  function Nodes(t: Tree): nat
    decreases t
  {
    match t
    case Leaf(_) => 1
    case Branch(_, kids) => 1 + NodesFrom(kids, 0)
  }

  function NodesFrom(kids: seq<Tree>, i: nat): nat
    requires i <= |kids|
    decreases kids, |kids| - i
  {
    if i == |kids| then 0 else Nodes(kids[i]) + NodesFrom(kids, i + 1)
  }

  lemma {:induction false} KidIsSmaller(kids: seq<Tree>, i: nat, j: nat)
    requires i <= j < |kids|
    ensures Nodes(kids[j]) <= NodesFrom(kids, i)
    decreases j - i
  {
    if i < j {
      KidIsSmaller(kids, i + 1, j);
    }
  }

  predicate Short(c: int) { c == 34 || c == 92 || c == 8 || c == 9 || c == 10 || c == 12 || c == 13 }

  predicate PairAt(t: Text, i: nat) { i + 1 < |t| && Utf8.High(t[i]) && Utf8.Low(t[i + 1]) }

  /** Bytes for the code unit, or the surrogate pair, at `i`. */
  function UnitCost(t: Text, i: nat): (n: nat)
    requires i < |t|
    ensures n >= 1 && (PairAt(t, i) ==> n == 4)
  {
    var c := t[i];
    if Short(c) then 2
    else if c < 32 then 6
    else if PairAt(t, i) then 4
    else if Utf8.High(c) || Utf8.Low(c) then 6
    else if c < 128 then 1 else if c < 2048 then 2 else 3
  }

  function UnitsFrom(t: Text, i: nat): (n: nat)
    requires i <= |t|
    ensures n >= |t| - i
    decreases |t| - i
  {
    if i == |t| then 0 else UnitCost(t, i) + UnitsFrom(t, if PairAt(t, i) then i + 2 else i + 1)
  }

  function StringCost(t: Text): nat { 2 + UnitsFrom(t, 0) }

  function ScalarCost(v: Value): nat {
    match v
    case Null => 4
    case Boolean(flag) => if flag then 4 else 5
    case Number(_, digits) => |digits|
    case Str(t) => StringCost(t)
    case _ => 0
  }

  /** Keys with their quotes, colons, and the commas between members. */
  function KeysCost(keys: seq<Text>, i: nat): nat
    requires i <= |keys|
    decreases |keys| - i
  {
    if i == |keys| then 0 else StringCost(keys[i]) + (if i == 0 then 1 else 2) + KeysCost(keys, i + 1)
  }

  function HeadCost(keys: Option<seq<Text>>): nat { 2 + if keys.Some? then KeysCost(keys.value, 0) else 0 }

  /** The number of bytes of the compact encoding. */
  function Size(t: Tree): nat
    decreases t
  {
    match t
    case Leaf(v) => ScalarCost(v)
    case Branch(keys, kids) => HeadCost(keys) + RestCost(keys.None?, kids, 0)
  }

  /** The children from `i` on, with the commas an array puts before all but the first. */
  function RestCost(array_: bool, kids: seq<Tree>, i: nat): nat
    requires i <= |kids|
    decreases kids, |kids| - i
  {
    if i == |kids| then 0 else (if array_ && i > 0 then 1 else 0) + Size(kids[i]) + RestCost(array_, kids, i + 1)
  }

  lemma {:induction false} CostsSomething(graph: Graph, v: Value, t: Tree)
    requires Unfolds(graph, v, t)
    ensures Size(t) >= 1
  {
  }

  lemma {:induction false} ArrayNeeds(graph: Graph, node: Node, kids: seq<Tree>, i: nat)
    requires i <= |kids| == |Kids(node)| && forall k | 0 <= k < |kids| :: Unfolds(graph, Kids(node)[k], kids[k])
    ensures RestCost(true, kids, i) >= 2 * (|kids| - i) - if i == 0 && |kids| > 0 then 1 else 0
    decreases |kids| - i
  {
    if i < |kids| {
      CostsSomething(graph, Kids(node)[i], kids[i]);
      ArrayNeeds(graph, node, kids, i + 1);
    }
  }

  // ---------------------------------------------------------------- the encoding itself

  function Hex(n: int): (b: Byte)
    requires 0 <= n < 16
  {
    if n < 10 then 48 + n else 87 + n
  }

  function UnicodeEscape(c: Code): seq<Byte> {
    [92, 117, Hex(c / 4096), Hex(c / 256 % 16), Hex(c / 16 % 16), Hex(c % 16)]
  }

  function ShortEscape(c: int): Byte
    requires Short(c)
  {
    if c == 34 || c == 92 then c
    else if c == 8 then 98 else if c == 9 then 116 else if c == 10 then 110 else if c == 12 then 102 else 114
  }

  /** JSON text of the unit at `i`, in UTF-8; control characters and lone surrogates are escaped. */
  function EncodeUnit(t: Text, i: nat): seq<Byte>
    requires i < |t|
  {
    var c := t[i];
    if Short(c) then [92, ShortEscape(c)]
    else if c < 32 then UnicodeEscape(c)
    else if PairAt(t, i) then Utf8.EncodePair(c, t[i + 1])
    else if Utf8.High(c) || Utf8.Low(c) then UnicodeEscape(c)
    else Utf8.EncodeOne(c)
  }

  function EncodeUnits(t: Text, i: nat): seq<Byte>
    requires i <= |t|
    decreases |t| - i
  {
    if i == |t| then [] else EncodeUnit(t, i) + EncodeUnits(t, if PairAt(t, i) then i + 2 else i + 1)
  }

  function EncodeString(t: Text): seq<Byte> { [34] + EncodeUnits(t, 0) + [34] }

  function EncodeScalar(v: Value): seq<Byte> {
    match v
    case Null => [110, 117, 108, 108]
    case Boolean(flag) => if flag then [116, 114, 117, 101] else [102, 97, 108, 115, 101]
    case Number(_, digits) => digits
    case Str(t) => EncodeString(t)
    case _ => []
  }

  /** The compact JSON text of a tree, in UTF-8. */
  function Encode(t: Tree): seq<Byte>
    decreases t
  {
    match t
    case Leaf(v) => EncodeScalar(v)
    case Branch(None, kids) => [91] + EncodeItems(kids, 0) + [93]
    case Branch(Some(keys), kids) => if |keys| == |kids| then [123] + EncodeMembers(keys, kids, 0) + [125] else []
  }

  function EncodeItems(kids: seq<Tree>, i: nat): seq<Byte>
    requires i <= |kids|
    decreases kids, |kids| - i
  {
    if i == |kids| then [] else (if i > 0 then [44] else []) + Encode(kids[i]) + EncodeItems(kids, i + 1)
  }

  function EncodeMembers(keys: seq<Text>, kids: seq<Tree>, i: nat): seq<Byte>
    requires i <= |kids| == |keys|
    decreases kids, |kids| - i
  {
    if i == |kids| then []
    else (if i > 0 then [44] else []) + EncodeString(keys[i]) + [58] + Encode(kids[i]) + EncodeMembers(keys, kids, i + 1)
  }

  lemma {:induction false} UnitsLength(t: Text, i: nat)
    requires i <= |t|
    ensures |EncodeUnits(t, i)| == UnitsFrom(t, i)
    decreases |t| - i
  {
    if i < |t| {
      UnitsLength(t, if PairAt(t, i) then i + 2 else i + 1);
    }
  }

  /** The charged size is the length of the encoding. */
  lemma {:induction false} SizeIsLength(graph: Graph, v: Value, t: Tree)
    requires Unfolds(graph, v, t)
    ensures Size(t) == |Encode(t)|
    decreases t
  {
    match t {
      case Leaf(w) =>
        if w.Str? {
          UnitsLength(w.text, 0);
        }
      case Branch(keys, kids) =>
        var node := NodeOf(graph, v.ref);
        forall i | 0 <= i < |kids| ensures Size(kids[i]) == |Encode(kids[i])| {
          SizeIsLength(graph, Kids(node)[i], kids[i]);
        }
        if keys.None? {
          ItemsLength(kids, 0);
        } else {
          MembersLength(keys.value, kids, 0);
        }
    }
  }

  lemma {:induction false} ItemsLength(kids: seq<Tree>, i: nat)
    requires i <= |kids| && forall k | 0 <= k < |kids| :: Size(kids[k]) == |Encode(kids[k])|
    ensures |EncodeItems(kids, i)| == RestCost(true, kids, i)
    decreases |kids| - i
  {
    if i < |kids| {
      ItemsLength(kids, i + 1);
    }
  }

  lemma {:induction false} MembersLength(keys: seq<Text>, kids: seq<Tree>, i: nat)
    requires i <= |kids| == |keys| && forall k | 0 <= k < |kids| :: Size(kids[k]) == |Encode(kids[k])|
    ensures |EncodeMembers(keys, kids, i)| == KeysCost(keys, i) + RestCost(false, kids, i)
    decreases |kids| - i
  {
    if i < |kids| {
      UnitsLength(keys[i], 0);
      MembersLength(keys, kids, i + 1);
    }
  }

  // ---------------------------------------------------------------- copied targets

  datatype Copied = Plain(value: Value) | To(id: nat)

  /** A copy under construction, filled in place. */
  datatype Target = Target(keys: Option<seq<Text>>, items: seq<Copied>)

  /** The copy is the tree. */
  ghost predicate Represents(targets: map<nat, Target>, c: Copied, t: Tree)
    decreases t
  {
    match t
    case Leaf(v) => c == Plain(v)
    case Branch(keys, kids) =>
      && c.To? && c.id in targets && targets[c.id].keys == keys && |targets[c.id].items| == |kids|
      && forall i | 0 <= i < |kids| :: Represents(targets, targets[c.id].items[i], kids[i])
  }

  /** What a finished item stands for. */
  function TreeOf(c: Copied, built: map<nat, Tree>): Tree
    requires c.To? ==> c.id in built
  {
    match c
    case Plain(v) => Leaf(v)
    case To(id) => built[id]
  }

  predicate Finished(target: Target, built: map<nat, Tree>) {
    forall i | 0 <= i < |target.items| :: target.items[i].To? ==> target.items[i].id in built
  }

  function BranchOf(target: Target, built: map<nat, Tree>): Tree
    requires Finished(target, built)
  {
    Branch(target.keys, seq(|target.items|, i requires 0 <= i < |target.items| => TreeOf(target.items[i], built)))
  }

  predicate BuiltOk(targets: map<nat, Target>, built: map<nat, Tree>) {
    forall id | id in built :: id in targets && Finished(targets[id], built) && built[id] == BranchOf(targets[id], built)
  }

  lemma {:induction false} BuiltRepresents(targets: map<nat, Target>, built: map<nat, Tree>, c: Copied, t: Tree)
    requires BuiltOk(targets, built) && (c.To? ==> c.id in built) && t == TreeOf(c, built)
    ensures Represents(targets, c, t)
    decreases t
  {
    if c.To? {
      var items := targets[c.id].items;
      forall i | 0 <= i < |items| ensures Represents(targets, items[i], t.kids[i]) {
        BuiltRepresents(targets, built, items[i], t.kids[i]);
      }
    }
  }

  // ---------------------------------------------------------------- frames

  datatype Frame = Frame(source: Ref, target: nat, position: nat)

  /** A finished item of a frame is a faithful copy of the child. */
  ghost predicate Faithful(graph: Graph, v: Value, c: Copied, built: map<nat, Tree>) {
    (c.To? ==> c.id in built) && Unfolds(graph, v, TreeOf(c, built))
  }

  /** How many items of a frame are finished: the last one of an inner frame is under construction. */
  function FinishedCount(f: Frame, inner: bool): int { if inner then f.position - 1 else f.position }

  ghost predicate FrameOk(graph: Graph, f: Frame, targets: map<nat, Target>, built: map<nat, Tree>, inner: bool) {
    var node := NodeOf(graph, f.source);
    && !node.Foreign? && f.position <= |Kids(node)| && f.target in targets && f.target !in built
    && |targets[f.target].items| == f.position
    && targets[f.target].keys == (if node.ObjectNode? then Some(node.keys[..f.position]) else None)
    && (inner ==> f.position > 0)
    && forall j | 0 <= j < FinishedCount(f, inner) :: Faithful(graph, Kids(node)[j], targets[f.target].items[j], built)
  }

  /** The item a frame works on is the frame above it. */
  ghost predicate Linked(graph: Graph, f: Frame, above: Frame, targets: map<nat, Target>) {
    && f.target in targets && 0 < f.position <= |Kids(NodeOf(graph, f.source))| && |targets[f.target].items| == f.position
    && Kids(NodeOf(graph, f.source))[f.position - 1] == Object(above.source)
    && targets[f.target].items[f.position - 1] == To(above.target)
  }

  ghost predicate StackOk(graph: Graph, stack: seq<Frame>, targets: map<nat, Target>, built: map<nat, Tree>, fresh_: nat) {
    && BuiltOk(targets, built)
    && (forall i | 0 <= i < |stack| :: FrameOk(graph, stack[i], targets, built, i + 1 < |stack|))
    && (forall i | 0 <= i < |stack| - 1 :: Linked(graph, stack[i], stack[i + 1], targets))
    && (forall i, j | 0 <= i < j < |stack| :: stack[i].target != stack[j].target)
    && (forall id | id in targets :: id < fresh_)
  }

  /** The root copy: what the bottom frame builds, or what has been built. */
  ghost predicate RootOk(graph: Graph, input: Value, root: Copied, stack: seq<Frame>, built: map<nat, Tree>) {
    if stack == [] then Faithful(graph, input, root, built)
    else input == Object(stack[0].source) && root == To(stack[0].target)
  }

  // ---------------------------------------------------------------- what remains to be paid

  /** The trees the frames must come to, outermost first, if the input is a tree at all. */
  ghost predicate GoalsOk(graph: Graph, stack: seq<Frame>, goals: seq<Tree>) {
    && |goals| == |stack|
    && (forall i | 0 <= i < |stack| ::
          goals[i].Branch? && Unfolds(graph, Object(stack[i].source), goals[i]) && stack[i].position <= |goals[i].kids|)
    && (forall i, j | 0 <= i < j < |goals| :: Nodes(goals[j]) < Nodes(goals[i]))
  }

  function FrameCost(f: Frame, goal: Tree): nat
    requires goal.Branch? && f.position <= |goal.kids|
  {
    RestCost(goal.keys.None?, goal.kids, f.position)
  }

  ghost function Outstanding(stack: seq<Frame>, goals: seq<Tree>): nat
    requires |goals| == |stack| && forall i | 0 <= i < |stack| :: goals[i].Branch? && stack[i].position <= |goals[i].kids|
  {
    if stack == [] then 0
    else
      var n := |stack| - 1;
      Outstanding(stack[..n], goals[..n]) + FrameCost(stack[n], goals[n])
  }

  // ---------------------------------------------------------------- steps

  /** A target with one more item. */
  function Filled(target: Target, node: Node, p: nat, c: Copied): Target {
    Target(if node.ObjectNode? && target.keys.Some? && p < |node.keys| then Some(target.keys.value + [node.keys[p]]) else target.keys,
           target.items + [c])
  }

  function Opened(node: Node): Target { Target(if node.ObjectNode? then Some([]) else None, []) }

  /** The top frame has moved past a child whose copy has been put in place. */
  function Moved(stack: seq<Frame>): seq<Frame>
    requires stack != []
  {
    var n := |stack| - 1;
    stack[n := stack[n].(position := stack[n].position + 1)]
  }

  ghost predicate AtChild(graph: Graph, stack: seq<Frame>, v: Value) {
    && stack != []
    && var f := stack[|stack| - 1];
       f.position < |Kids(NodeOf(graph, f.source))| && v == Kids(NodeOf(graph, f.source))[f.position]
  }

  lemma {:induction false} OtherFrames(graph: Graph, f: Frame, targets: map<nat, Target>, built: map<nat, Tree>, inner: bool, id: nat, t: Target)
    requires FrameOk(graph, f, targets, built, inner) && f.target != id
    ensures FrameOk(graph, f, targets[id := t], built, inner)
  {
  }

  lemma {:induction false} BuiltKeeps(targets: map<nat, Target>, built: map<nat, Tree>, id: nat, t: Target)
    requires BuiltOk(targets, built) && id !in built
    ensures BuiltOk(targets[id := t], built)
  {
  }

  lemma {:induction false} FilledFrame(graph: Graph, f: Frame, targets: map<nat, Target>, built: map<nat, Tree>, c: Copied, inner: bool)
    requires FrameOk(graph, f, targets, built, false) && f.position < |Kids(NodeOf(graph, f.source))|
    requires !inner ==> Faithful(graph, Kids(NodeOf(graph, f.source))[f.position], c, built)
    ensures FrameOk(graph, f.(position := f.position + 1),
                    targets[f.target := Filled(targets[f.target], NodeOf(graph, f.source), f.position, c)], built, inner)
  {
    var node := NodeOf(graph, f.source);
    if node.ObjectNode? {
      assert node.keys[..f.position] + [node.keys[f.position]] == node.keys[..f.position + 1];
    }
  }

  lemma {:induction false} LeafStep(graph: Graph, stack: seq<Frame>, targets: map<nat, Target>, built: map<nat, Tree>, fresh_: nat, v: Value)
    requires StackOk(graph, stack, targets, built, fresh_) && AtChild(graph, stack, v) && Scalar(v)
    ensures var f := stack[|stack| - 1];
      && f.target in targets
      && StackOk(graph, Moved(stack),
                 targets[f.target := Filled(targets[f.target], NodeOf(graph, f.source), f.position, Plain(v))], built, fresh_)
  {
    hide Unfolds, BuiltOk, Kids;
    var n := |stack| - 1;
    var f := stack[n];
    assert FrameOk(graph, f, targets, built, false);
    var t := Filled(targets[f.target], NodeOf(graph, f.source), f.position, Plain(v));
    var targets', stack' := targets[f.target := t], Moved(stack);
    assert Faithful(graph, v, Plain(v), built) by { LeafUnfolds(graph, v); }
    FilledFrame(graph, f, targets, built, Plain(v), false);
    BuiltKeeps(targets, built, f.target, t);
    forall i | 0 <= i < n ensures FrameOk(graph, stack'[i], targets', built, i + 1 < |stack'|) {
      assert FrameOk(graph, stack[i], targets, built, true);
      OtherFrames(graph, stack[i], targets, built, true, f.target, t);
    }
    forall i | 0 <= i < n ensures Linked(graph, stack'[i], stack'[i + 1], targets') {
      assert Linked(graph, stack[i], stack[i + 1], targets);
    }
  }

  lemma {:induction false} LeafUnfolds(graph: Graph, v: Value)
    requires Scalar(v)
    ensures Unfolds(graph, v, Leaf(v))
  {
  }

  lemma {:induction false} BranchStep(graph: Graph, stack: seq<Frame>, targets: map<nat, Target>, built: map<nat, Tree>, fresh_: nat, v: Value)
    requires StackOk(graph, stack, targets, built, fresh_) && AtChild(graph, stack, v)
    requires v.Object? && !NodeOf(graph, v.ref).Foreign?
    ensures var f := stack[|stack| - 1];
      && f.target in targets && f.target != fresh_
      && StackOk(graph, Moved(stack) + [Frame(v.ref, fresh_, 0)],
                 targets[fresh_ := Opened(NodeOf(graph, v.ref))]
                        [f.target := Filled(targets[f.target], NodeOf(graph, f.source), f.position, To(fresh_))],
                 built, fresh_ + 1)
  {
    hide Unfolds, BuiltOk, Kids;
    var n := |stack| - 1;
    var f := stack[n];
    assert FrameOk(graph, f, targets, built, false);
    var opened_ := Opened(NodeOf(graph, v.ref));
    var t := Filled(targets[f.target], NodeOf(graph, f.source), f.position, To(fresh_));
    var widened := targets[fresh_ := opened_];
    var targets', stack' := widened[f.target := t], Moved(stack) + [Frame(v.ref, fresh_, 0)];
    assert fresh_ !in built by { FreshIsNew(targets, built, fresh_); }
    OtherFrames(graph, f, targets, built, false, fresh_, opened_);
    FilledFrame(graph, f, widened, built, To(fresh_), true);
    BuiltKeeps(targets, built, fresh_, opened_);
    BuiltKeeps(widened, built, f.target, t);
    forall i | 0 <= i < n ensures FrameOk(graph, stack'[i], targets', built, true) {
      assert FrameOk(graph, stack[i], targets, built, true);
      OtherFrames(graph, stack[i], targets, built, true, fresh_, opened_);
      OtherFrames(graph, stack[i], widened, built, true, f.target, t);
    }
    forall i | 0 <= i < n ensures Linked(graph, stack'[i], stack'[i + 1], targets') {
      assert Linked(graph, stack[i], stack[i + 1], targets);
      assert FrameOk(graph, stack[i], targets, built, true);
    }
    NewFrame(graph, v.ref, fresh_, targets', built);
    forall i | 0 <= i < n ensures stack'[i].target != fresh_ {
      assert FrameOk(graph, stack[i], targets, built, true);
    }
  }

  lemma {:induction false} FreshIsNew(targets: map<nat, Target>, built: map<nat, Tree>, fresh_: nat)
    requires BuiltOk(targets, built) && forall id | id in targets :: id < fresh_
    ensures fresh_ !in built
  {
  }

  lemma {:induction false} NewFrame(graph: Graph, r: Ref, id: nat, targets: map<nat, Target>, built: map<nat, Tree>)
    requires !NodeOf(graph, r).Foreign? && id in targets && id !in built && targets[id] == Opened(NodeOf(graph, r))
    ensures FrameOk(graph, Frame(r, id, 0), targets, built, false)
  {
    assert NodeOf(graph, r).ObjectNode? ==> NodeOf(graph, r).keys[..0] == [];
  }

  lemma {:induction false} FirstStep(graph: Graph, r: Ref)
    requires !NodeOf(graph, r).Foreign?
    ensures StackOk(graph, [Frame(r, 0, 0)], map[0 := Opened(NodeOf(graph, r))], map[], 1)
  {
    NewFrame(graph, r, 0, map[0 := Opened(NodeOf(graph, r))], map[]);
  }

  ghost predicate Complete(graph: Graph, stack: seq<Frame>) {
    stack != [] && stack[|stack| - 1].position == |Kids(NodeOf(graph, stack[|stack| - 1].source))|
  }

  lemma {:induction false} FaithfulGrows(graph: Graph, v: Value, c: Copied, built: map<nat, Tree>, id: nat, t: Tree)
    requires Faithful(graph, v, c, built) && id !in built
    ensures Faithful(graph, v, c, built[id := t])
  {
  }

  lemma {:induction false} CompleteBuilds(graph: Graph, f: Frame, targets: map<nat, Target>, built: map<nat, Tree>)
    requires FrameOk(graph, f, targets, built, false) && f.position == |Kids(NodeOf(graph, f.source))|
    ensures Finished(targets[f.target], built) && Unfolds(graph, Object(f.source), BranchOf(targets[f.target], built))
  {
    var node, target := NodeOf(graph, f.source), targets[f.target];
    forall i | 0 <= i < |target.items| ensures target.items[i].To? ==> target.items[i].id in built {
      assert Faithful(graph, Kids(node)[i], target.items[i], built);
    }
    if node.ObjectNode? {
      assert node.keys[..f.position] == node.keys;
    }
  }

  lemma {:induction false} CompleteStep(graph: Graph, stack: seq<Frame>, targets: map<nat, Target>, built: map<nat, Tree>, fresh_: nat)
    requires StackOk(graph, stack, targets, built, fresh_) && Complete(graph, stack)
    ensures var n := |stack| - 1;
      && stack[n].target in targets && Finished(targets[stack[n].target], built)
      && Faithful(graph, Object(stack[n].source), To(stack[n].target), built[stack[n].target := BranchOf(targets[stack[n].target], built)])
      && StackOk(graph, stack[..n], targets, built[stack[n].target := BranchOf(targets[stack[n].target], built)], fresh_)
  {
    hide Unfolds;
    var n := |stack| - 1;
    var f := stack[n];
    assert FrameOk(graph, f, targets, built, false);
    CompleteBuilds(graph, f, targets, built);
    var tree := BranchOf(targets[f.target], built);
    var built' := built[f.target := tree];
    BuiltGrows(targets, built, f.target);
    forall i | 0 <= i < n ensures FrameOk(graph, stack[i], targets, built', i + 1 < n) {
      assert FrameOk(graph, stack[i], targets, built, true);
      assert Linked(graph, stack[i], stack[i + 1], targets);
      GrownFrame(graph, stack[i], targets, built, f.target, tree);
      if i + 1 == n {
        LastItem(graph, stack[i], f, targets, built');
      }
    }
    forall i | 0 <= i < n - 1 ensures Linked(graph, stack[..n][i], stack[..n][i + 1], targets) {
      assert Linked(graph, stack[i], stack[i + 1], targets);
    }
  }

  lemma {:induction false} BuiltGrows(targets: map<nat, Target>, built: map<nat, Tree>, id: nat)
    requires BuiltOk(targets, built) && id in targets && id !in built && Finished(targets[id], built)
    ensures BuiltOk(targets, built[id := BranchOf(targets[id], built)])
  {
    var built' := built[id := BranchOf(targets[id], built)];
    forall k | k in built' ensures Finished(targets[k], built') && built'[k] == BranchOf(targets[k], built') {
      assert Finished(targets[k], built) && built'[k] == BranchOf(targets[k], built);
    }
  }

  lemma {:induction false} GrownFrame(graph: Graph, f: Frame, targets: map<nat, Target>, built: map<nat, Tree>, id: nat, t: Tree)
    requires FrameOk(graph, f, targets, built, true) && f.target != id && id !in built
    ensures FrameOk(graph, f, targets, built[id := t], true)
  {
    hide Unfolds, Faithful;
    forall j | 0 <= j < f.position - 1
      ensures Faithful(graph, Kids(NodeOf(graph, f.source))[j], targets[f.target].items[j], built[id := t])
    {
      FaithfulGrows(graph, Kids(NodeOf(graph, f.source))[j], targets[f.target].items[j], built, id, t);
    }
  }

  lemma {:induction false} LastItem(graph: Graph, f: Frame, above: Frame, targets: map<nat, Target>, built: map<nat, Tree>)
    requires FrameOk(graph, f, targets, built, true) && Linked(graph, f, above, targets)
    requires Faithful(graph, Object(above.source), To(above.target), built)
    ensures FrameOk(graph, f, targets, built, false)
  {
    hide Unfolds, Faithful;
  }

  // ---------------------------------------------------------------- payments

  lemma {:induction false} GoalShape(graph: Graph, stack: seq<Frame>, goals: seq<Tree>, i: nat)
    requires GoalsOk(graph, stack, goals) && i < |stack|
    ensures var node := NodeOf(graph, stack[i].source);
      && goals[i].Branch? && !node.Foreign? && goals[i].keys == Keys(node) && |goals[i].kids| == |Kids(node)|
      && forall k | 0 <= k < |goals[i].kids| :: Unfolds(graph, Kids(node)[k], goals[i].kids[k])
  {
    var v, t := Object(stack[i].source), goals[i];
    UnfoldsBranch(graph, v, t);
  }

  lemma {:induction false} UnfoldsBranch(graph: Graph, v: Value, t: Tree)
    requires Unfolds(graph, v, t) && v.Object?
    ensures var node := NodeOf(graph, v.ref);
      && t.Branch? && !node.Foreign? && t.keys == Keys(node) && |t.kids| == |Kids(node)|
      && forall k | 0 <= k < |t.kids| :: Unfolds(graph, Kids(node)[k], t.kids[k])
  {
  }

  /** What the top frame's next child and everything else still cost. */
  lemma {:induction false} ChildGoal(graph: Graph, stack: seq<Frame>, goals: seq<Tree>, v: Value)
    requires GoalsOk(graph, stack, goals) && AtChild(graph, stack, v)
    ensures var n := |stack| - 1;
      var f := stack[n];
      && f.position < |goals[n].kids| && Unfolds(graph, v, goals[n].kids[f.position])
      && goals[n].keys.None? == NodeOf(graph, f.source).ArrayNode?
      && Outstanding(stack, goals) == Outstanding(Moved(stack), goals) + Size(goals[n].kids[f.position])
                                    + (if goals[n].keys.None? && f.position > 0 then 1 else 0)
      && GoalsOk(graph, Moved(stack), goals)
  {
    hide Unfolds, Nodes, Size;
    GoalShape(graph, stack, goals, |stack| - 1);
    assert Moved(stack)[..|stack| - 1] == stack[..|stack| - 1];
  }

  lemma {:induction false} PushGoal(graph: Graph, stack: seq<Frame>, goals: seq<Tree>, r: Ref, id: nat, e: Tree)
    requires GoalsOk(graph, stack, goals) && Unfolds(graph, Object(r), e)
    requires stack != [] ==> Nodes(e) < Nodes(goals[|stack| - 1])
    ensures e.Branch? && GoalsOk(graph, stack + [Frame(r, id, 0)], goals + [e])
    ensures Outstanding(stack + [Frame(r, id, 0)], goals + [e]) + HeadCost(Keys(NodeOf(graph, r))) == Outstanding(stack, goals) + Size(e)
  {
    hide Nodes;
    var stack', goals' := stack + [Frame(r, id, 0)], goals + [e];
    assert stack'[..|stack|] == stack && goals'[..|stack|] == goals;
    forall i, j | 0 <= i < j < |goals'| ensures Nodes(goals'[j]) < Nodes(goals'[i]) {
      if j == |goals| && i < |goals| - 1 {
        assert Nodes(goals[|goals| - 1]) < Nodes(goals[i]);
      }
    }
  }

  lemma {:induction false} PopGoal(graph: Graph, stack: seq<Frame>, goals: seq<Tree>)
    requires GoalsOk(graph, stack, goals) && Complete(graph, stack)
    ensures var n := |stack| - 1;
      |goals| == |stack| && GoalsOk(graph, stack[..n], goals[..n]) && Outstanding(stack[..n], goals[..n]) == Outstanding(stack, goals)
  {
    GoalShape(graph, stack, goals, |stack| - 1);
  }

  /** An object inside its own unfolding would be smaller than itself. */
  lemma {:induction false} NoCycle(graph: Graph, stack: seq<Frame>, goals: seq<Tree>, v: Value, i: nat)
    requires GoalsOk(graph, stack, goals) && AtChild(graph, stack, v) && i < |stack|
    ensures v != Object(stack[i].source)
  {
    var n := |stack| - 1;
    ChildGoal(graph, stack, goals, v);
    var e := goals[n].kids[stack[n].position];
    KidIsSmaller(goals[n].kids, 0, stack[n].position);
    assert Nodes(e) < Nodes(goals[n]) <= Nodes(goals[i]);
    if v == Object(stack[i].source) {
      UnfoldsOnce(graph, v, e, goals[i]);
    }
  }

  lemma {:induction false} KidsAreSmaller(t: Tree, i: nat)
    requires t.Branch? && i < |t.kids|
    ensures Nodes(t.kids[i]) < Nodes(t)
  {
    KidIsSmaller(t.kids, 0, i);
  }

  /** The sources of the open frames, none of them twice. */
  predicate AncestorsOk(stack: seq<Frame>, ancestors: set<Ref>) {
    && (forall i | 0 <= i < |stack| :: stack[i].source in ancestors)
    && (forall r | r in ancestors :: exists i :: 0 <= i < |stack| && stack[i].source == r)
    && (forall i, j | 0 <= i < j < |stack| :: stack[i].source != stack[j].source)
  }

  lemma {:induction false} MovedAncestors(stack: seq<Frame>, ancestors: set<Ref>)
    requires AncestorsOk(stack, ancestors) && stack != []
    ensures AncestorsOk(Moved(stack), ancestors)
  {
    forall r | r in ancestors ensures exists i :: 0 <= i < |stack| && Moved(stack)[i].source == r {
      var i :| 0 <= i < |stack| && stack[i].source == r;
      assert Moved(stack)[i].source == r;
    }
  }

  lemma {:induction false} PushedAncestor(stack: seq<Frame>, ancestors: set<Ref>, f: Frame)
    requires AncestorsOk(stack, ancestors) && f.source !in ancestors
    ensures AncestorsOk(stack + [f], ancestors + {f.source})
  {
    var after := stack + [f];
    forall r | r in ancestors + {f.source} ensures exists i :: 0 <= i < |after| && after[i].source == r {
      if r in ancestors {
        var i :| 0 <= i < |stack| && stack[i].source == r;
        assert after[i].source == r;
      } else {
        assert after[|stack|].source == r;
      }
    }
  }

  lemma {:induction false} PoppedAncestor(stack: seq<Frame>, ancestors: set<Ref>)
    requires AncestorsOk(stack, ancestors) && stack != []
    ensures AncestorsOk(stack[..|stack| - 1], ancestors - {stack[|stack| - 1].source})
  {
    var after, last := stack[..|stack| - 1], stack[|stack| - 1].source;
    forall r | r in ancestors - {last} ensures exists i :: 0 <= i < |after| && after[i].source == r {
      var i :| 0 <= i < |stack| && stack[i].source == r;
      assert after[i].source == r;
    }
  }

  // ---------------------------------------------------------------- the copier

  class Snapshot {
    const graph: Graph
    const maximum: nat
    /** What the input unfolds to, if it does. */
    ghost const goal: Option<Tree>
    var remaining: nat
    var stack: seq<Frame>
    var ancestors: set<Ref>
    var targets: map<nat, Target>
    var fresh_: nat
    ghost var built: map<nat, Tree>
    ghost var goals: seq<Tree>

    /** The copy so far is faithful, and the open objects are the ancestors. */
    ghost predicate Valid()
      reads this
    {
      && StackOk(graph, stack, targets, built, fresh_)
      && AncestorsOk(stack, ancestors)
    }

    /** If the input is a tree, what remains is the budget less the size, plus what is still owed. */
    ghost predicate Balanced()
      reads this
    {
      goal.Some? ==> GoalsOk(graph, stack, goals) && remaining - Outstanding(stack, goals) == maximum - Size(goal.value)
    }

    constructor (graph: Graph, maximum: nat, ghost goal: Option<Tree>)
      ensures this.graph == graph && this.maximum == maximum && this.goal == goal && remaining == maximum
      ensures stack == [] && ancestors == {} && targets == map[] && fresh_ == 0
      ensures built == map[] && goals == []
    {
      this.graph := graph;
      this.maximum := maximum;
      this.goal := goal;
      remaining, stack, ancestors, targets, fresh_ := maximum, [], {}, map[], 0;
      built, goals := map[], [];
    }

    method Charge(bytes: nat) returns (ok: bool)
      modifies this`remaining
      ensures ok == (bytes <= old(remaining)) && (ok ==> remaining == old(remaining) - bytes)
    {
      if bytes > remaining { return false; }
      remaining := remaining - bytes;
      ok := true;
    }

    method ChargeString(t: Text) returns (ok: bool)
      modifies this`remaining
      ensures ok == (StringCost(t) <= old(remaining)) && (ok ==> remaining == old(remaining) - StringCost(t))
    {
      if |t| > remaining { return false; }
      ok := Charge(2);
      if !ok { return; }
      var index := 0;
      while index < |t|
        invariant index <= |t| && old(remaining) - StringCost(t) == remaining - UnitsFrom(t, index)
      {
        var code := t[index];
        if Short(code) {
          ok := Charge(2);
        } else if code < 32 {
          ok := Charge(6);
        } else if Utf8.High(code) {
          if PairAt(t, index) {
            ok := Charge(4);
            index := index + 1;
          } else {
            ok := Charge(6);
          }
        } else if Utf8.Low(code) {
          ok := Charge(6);
        } else {
          ok := Charge(if code < 128 then 1 else if code < 2048 then 2 else 3);
        }
        if !ok { return; }
        index := index + 1;
      }
    }

    /** The keys of an object are charged before any of its values. */
    method ChargeKeys(keys: seq<Text>) returns (ok: bool)
      modifies this`remaining
      ensures ok == (KeysCost(keys, 0) <= old(remaining)) && (ok ==> remaining == old(remaining) - KeysCost(keys, 0))
    {
      for i := 0 to |keys|
        invariant old(remaining) - KeysCost(keys, 0) == remaining - KeysCost(keys, i)
      {
        ok := ChargeString(keys[i]);
        if !ok { return; }
        ok := Charge(if i == 0 then 1 else 2);
        if !ok { return; }
      }
      ok := true;
    }

    /** Copies a scalar, or opens an object; the tree is what the value unfolds to, if it does. */
    method Copy(v: Value, ghost e: Option<Tree>) returns (c: Option<Copied>)
      requires e.Some? ==> Unfolds(graph, v, e.value)
      modifies this`remaining, this`stack, this`ancestors, this`targets, this`fresh_
      ensures c.None? ==> e.None? || Size(e.value) > old(remaining) || (v.Object? && v.ref in old(ancestors))
      ensures c.Some? ==> if v.Object? then
          && !NodeOf(graph, v.ref).Foreign? && v.ref !in old(ancestors) && c.value == To(old(fresh_))
          && HeadCost(Keys(NodeOf(graph, v.ref))) <= old(remaining)
          && remaining == old(remaining) - HeadCost(Keys(NodeOf(graph, v.ref)))
          && stack == old(stack) + [Frame(v.ref, old(fresh_), 0)] && ancestors == old(ancestors) + {v.ref}
          && targets == old(targets)[old(fresh_) := Opened(NodeOf(graph, v.ref))] && fresh_ == old(fresh_) + 1
        else
          && Scalar(v) && c.value == Plain(v) && ScalarCost(v) <= old(remaining) && remaining == old(remaining) - ScalarCost(v)
          && stack == old(stack) && ancestors == old(ancestors) && targets == old(targets) && fresh_ == old(fresh_)
    {
      var ok: bool;
      match v {
        case Null => ok := Charge(4);
        case Str(t) => ok := ChargeString(t);
        case Boolean(flag) => ok := Charge(if flag then 4 else 5);
        case Number(finite, digits) =>
          if !finite { return None; }
          ok := Charge(|digits|);
        case Object(r) =>
          ok := Open(r, e);
          return if ok then Some(To(fresh_ - 1)) else None;
        case Unusable =>
          return None;
      }
      if !ok { return None; }
      c := Some(Plain(v));
    }

    /** A child, after the comma that separates array items. */
    method CopyChild(v: Value, comma: bool, ghost e: Option<Tree>) returns (c: Option<Copied>)
      requires e.Some? ==> Unfolds(graph, v, e.value)
      modifies this`remaining, this`stack, this`ancestors, this`targets, this`fresh_
      ensures c.None? ==>
        e.None? || Size(e.value) + (if comma then 1 else 0) > old(remaining) || (v.Object? && v.ref in old(ancestors))
      ensures c.Some? ==> if v.Object? then
          && !NodeOf(graph, v.ref).Foreign? && v.ref !in old(ancestors) && c.value == To(old(fresh_))
          && remaining + HeadCost(Keys(NodeOf(graph, v.ref))) + (if comma then 1 else 0) == old(remaining)
          && HeadCost(Keys(NodeOf(graph, v.ref))) > 0
          && stack == old(stack) + [Frame(v.ref, old(fresh_), 0)] && ancestors == old(ancestors) + {v.ref}
          && targets == old(targets)[old(fresh_) := Opened(NodeOf(graph, v.ref))] && fresh_ == old(fresh_) + 1
        else
          && Scalar(v) && c.value == Plain(v) && remaining + ScalarCost(v) + (if comma then 1 else 0) == old(remaining)
          && ScalarCost(v) > 0
          && stack == old(stack) && ancestors == old(ancestors) && targets == old(targets) && fresh_ == old(fresh_)
    {
      hide Unfolds, Size, UnitsFrom, KeysCost;
      if comma {
        var ok := Charge(1);
        if !ok { return None; }
      }
      c := Copy(v, e);
    }

    method Open(r: Ref, ghost e: Option<Tree>) returns (ok: bool)
      requires e.Some? ==> Unfolds(graph, Object(r), e.value)
      modifies this`remaining, this`stack, this`ancestors, this`targets, this`fresh_
      ensures !ok ==> e.None? || Size(e.value) > old(remaining) || r in old(ancestors)
      ensures ok ==>
        && !NodeOf(graph, r).Foreign? && r !in old(ancestors)
        && HeadCost(Keys(NodeOf(graph, r))) <= old(remaining)
        && remaining == old(remaining) - HeadCost(Keys(NodeOf(graph, r)))
        && stack == old(stack) + [Frame(r, old(fresh_), 0)] && ancestors == old(ancestors) + {r}
        && targets == old(targets)[old(fresh_) := Opened(NodeOf(graph, r))] && fresh_ == old(fresh_) + 1
    {
      if r in ancestors { return false; }
      var node := NodeOf(graph, r);
      if node.Foreign? { return false; }
      ok := Charge(2);
      if !ok { return; }
      if node.ArrayNode? {
        var length := |node.items|;
        if e.Some? {
          ArrayNeeds(graph, node, e.value.kids, 0);
        }
        if length > 0 && length + length - 1 > remaining { return false; }
      } else {
        ok := ChargeKeys(node.keys);
        if !ok { return; }
      }
      targets := targets[fresh_ := Opened(node)];
      ancestors := ancestors + {r};
      stack := stack + [Frame(r, fresh_, 0)];
      fresh_ := fresh_ + 1;
      ok := true;
    }

    /** The top frame is finished: its object is no longer an ancestor. */
    method Close()
      requires Valid() && Balanced() && Complete(graph, stack)
      modifies this`stack, this`ancestors, this`built, this`goals
      ensures Valid() && Balanced() && stack == old(stack)[..|old(stack)| - 1]
      ensures var f := old(stack)[|old(stack)| - 1]; Faithful(graph, Object(f.source), To(f.target), built)
    {
      hide StackOk, Faithful, AncestorsOk, GoalsOk, Outstanding;
      var n := |stack| - 1;
      var f := stack[n];
      CompleteStep(graph, stack, targets, built, fresh_);
      PoppedAncestor(stack, ancestors);
      if goal.Some? {
        PopGoal(graph, stack, goals);
        goals := goals[..n];
      }
      built := built[f.target := BranchOf(targets[f.target], built)];
      ancestors := ancestors - {f.source};
      stack := stack[..n];
    }

    /** The next child of the top frame is charged, copied and put in place. */
    method Advance() returns (ok: bool)
      requires Valid() && Balanced() && stack != [] && !Complete(graph, stack)
      modifies this`remaining, this`stack, this`ancestors, this`targets, this`fresh_, this`goals
      ensures !ok ==> goal.None? || Size(goal.value) > maximum
      ensures ok ==> Valid() && Balanced() && remaining < old(remaining)
      ensures ok ==> stack != [] && stack[0].source == old(stack)[0].source && stack[0].target == old(stack)[0].target
    {
      hide StackOk, GoalsOk, Outstanding, Unfolds, Nodes, Size, UnitsFrom, KeysCost, RestCost, AncestorsOk,
           Filled, Opened, HeadCost, ScalarCost, Complete, AtChild, Moved, NodeOf, Keys;
      var n := |stack| - 1;
      var f := stack[n];
      ghost var before := stack;
      var node := NodeOf(graph, f.source);
      TopFrame(graph, stack, targets, built, fresh_);
      var v := Kids(node)[f.position];
      ghost var e: Option<Tree> := None;
      if goal.Some? {
        NextGoal(graph, stack, goals, v, ancestors);
        e := Some(goals[n].kids[f.position]);
      }
      MovedAncestors(stack, ancestors);
      stack := Moved(stack);
      var copied := CopyChild(v, node.ArrayNode? && f.position > 0, e);
      if copied.None? { return false; }
      targets := targets[f.target := Filled(targets[f.target], node, f.position, copied.value)];
      if v.Object? {
        BranchStep(graph, before, old(targets), built, old(fresh_), v);
        PushedAncestor(Moved(before), old(ancestors), Frame(v.ref, old(fresh_), 0));
        if goal.Some? {
          PushGoal(graph, Moved(before), goals, v.ref, old(fresh_), e.value);
          goals := goals + [e.value];
        }
      } else {
        LeafStep(graph, before, old(targets), built, fresh_, v);
        if goal.Some? {
          LeafSize(graph, v, e.value);
        }
      }
      ok := true;
    }

    method Run(input: Value) returns (root: Option<Copied>)
      requires Valid() && stack == [] && goals == [] && built == map[] && targets == map[] && fresh_ == 0 && remaining == maximum
      requires goal.Some? ==> Unfolds(graph, input, goal.value)
      modifies this
      ensures root.None? ==> goal.None? || Size(goal.value) > maximum
      ensures root.Some? ==> BuiltOk(targets, built) && Faithful(graph, input, root.value, built)
      ensures root.Some? && goal.Some? ==> Size(goal.value) <= maximum
    {
      hide GoalsOk, Outstanding, Unfolds, Size, UnitsFrom, KeysCost, RestCost;
      var copied := Copy(input, goal);
      if copied.None? { return None; }
      First(input);
      while stack != []
        invariant Valid() && Balanced() && RootOk(graph, input, copied.value, stack, built)
        decreases remaining, |stack|
      {
        if stack[|stack| - 1].position == |Kids(NodeOf(graph, stack[|stack| - 1].source))| {
          Close();
        } else {
          var ok := Advance();
          if !ok { return None; }
        }
      }
      if goal.Some? {
        NothingOwed(graph, goals);
      }
      root := copied;
    }

    /** After the input itself has been copied. */
    ghost method First(input: Value)
      requires goal.Some? ==> Unfolds(graph, input, goal.value)
      requires goals == [] && built == map[]
      requires if input.Object? then
          && !NodeOf(graph, input.ref).Foreign? && stack == [Frame(input.ref, 0, 0)] && ancestors == {input.ref}
          && targets == map[0 := Opened(NodeOf(graph, input.ref))] && fresh_ == 1
          && remaining + HeadCost(Keys(NodeOf(graph, input.ref))) == maximum
        else
          && Scalar(input) && stack == [] && ancestors == {} && targets == map[] && remaining + ScalarCost(input) == maximum
      modifies this`goals
      ensures Valid() && Balanced()
      ensures RootOk(graph, input, if input.Object? then To(0) else Plain(input), stack, built)
    {
      hide Unfolds, Size, UnitsFrom, KeysCost, RestCost;
      if input.Object? {
        FirstStep(graph, input.ref);
        assert stack[0].source == input.ref;
        if goal.Some? {
          PushGoal(graph, [], [], input.ref, 0, goal.value);
          NothingOwed(graph, []);
          assert [] + [Frame(input.ref, 0, 0)] == stack && [] + [goal.value] == [goal.value];
          goals := [goal.value];
        }
      } else {
        LeafUnfolds(graph, input);
        if goal.Some? {
          NothingOwed(graph, goals);
          LeafSize(graph, input, goal.value);
        }
      }
    }
  }

  lemma {:induction false} NotAnAncestor(graph: Graph, stack: seq<Frame>, goals: seq<Tree>, v: Value, ancestors: set<Ref>)
    requires GoalsOk(graph, stack, goals) && AtChild(graph, stack, v) && AncestorsOk(stack, ancestors)
    ensures v.Object? ==> v.ref !in ancestors
  {
    hide GoalsOk, AtChild;
    forall i | 0 <= i < |stack| ensures v != Object(stack[i].source) {
      NoCycle(graph, stack, goals, v, i);
    }
  }

  /** What the next child of the top frame should become, and why it can. */
  lemma {:induction false} NextGoal(graph: Graph, stack: seq<Frame>, goals: seq<Tree>, v: Value, ancestors: set<Ref>)
    requires GoalsOk(graph, stack, goals) && AtChild(graph, stack, v) && AncestorsOk(stack, ancestors)
    ensures var n := |stack| - 1;
      var f, moved := stack[n], Moved(stack);
      && |goals| == |stack| == |moved| && goals[n].Branch? && f.position < |goals[n].kids|
      && Unfolds(graph, v, goals[n].kids[f.position]) && Nodes(goals[n].kids[f.position]) < Nodes(goals[n])
      && GoalsOk(graph, moved, goals)
      && Outstanding(stack, goals) == Outstanding(moved, goals) + Size(goals[n].kids[f.position])
                                    + (if NodeOf(graph, f.source).ArrayNode? && f.position > 0 then 1 else 0)
    ensures v.Object? ==> v.ref !in ancestors
  {
    hide Unfolds, Nodes, Outstanding, Size, AncestorsOk;
    ChildGoal(graph, stack, goals, v);
    KidsAreSmaller(goals[|stack| - 1], stack[|stack| - 1].position);
    NotAnAncestor(graph, stack, goals, v, ancestors);
  }

  lemma {:induction false} TopFrame(graph: Graph, stack: seq<Frame>, targets: map<nat, Target>, built: map<nat, Tree>, fresh_: nat)
    requires StackOk(graph, stack, targets, built, fresh_) && stack != [] && !Complete(graph, stack)
    ensures var f := stack[|stack| - 1];
      && f.target in targets && f.target < fresh_ && f.position < |Kids(NodeOf(graph, f.source))|
      && AtChild(graph, stack, Kids(NodeOf(graph, f.source))[f.position])
    ensures Moved(stack) != [] && Moved(stack)[0].source == stack[0].source && Moved(stack)[0].target == stack[0].target
  {
    assert FrameOk(graph, stack[|stack| - 1], targets, built, false);
  }

  lemma {:induction false} LeafSize(graph: Graph, v: Value, t: Tree)
    requires Unfolds(graph, v, t) && !v.Object?
    ensures Size(t) == ScalarCost(v)
  {
  }

  lemma {:induction false} NothingOwed(graph: Graph, goals: seq<Tree>)
    requires GoalsOk(graph, [], goals)
    ensures Outstanding([], goals) == 0
  {
  }

  /** The whole copy: its heap of targets and the root, or a refusal. */
  datatype Outcome = Copy(targets: map<nat, Target>, root: Copied) | Refused

  /**
   * Object input is accepted exactly when it is a JSON tree whose compact encoding fits, and the copy is
   * that tree, however references are shared.
   */
  method SnapshotObject(graph: Graph, input: Value, maximum: nat) returns (r: Outcome)
    ensures r.Copy? <==> exists t :: Unfolds(graph, input, t) && |Encode(t)| <= maximum
    ensures r.Copy? ==> forall t :: Unfolds(graph, input, t) ==> Represents(r.targets, r.root, t)
  {
    hide Size, Encode;
    ghost var goal: Option<Tree> := None;
    if exists t :: Unfolds(graph, input, t) {
      var t :| Unfolds(graph, input, t);
      goal := Some(t);
    }
    var snapshot := new Snapshot(graph, maximum, goal);
    assert StackOk(graph, [], map[], map[], 0);
    var root := snapshot.Run(input);
    forall t | Unfolds(graph, input, t) ensures goal == Some(t) && Size(t) == |Encode(t)| {
      UnfoldsOnce(graph, input, t, goal.value);
      SizeIsLength(graph, input, t);
    }
    if root.None? { return Refused; }
    r := Outcome.Copy(snapshot.targets, root.value);
    ghost var tree := TreeOf(root.value, snapshot.built);
    BuiltRepresents(snapshot.targets, snapshot.built, root.value, tree);
    assert Unfolds(graph, input, tree);
  }
}
