/**
 * The cue-text markup tree of cue.c. Node records live in an arena and a
 * node pointer is an index into it (null is None). An internal node owns
 * its children through a growable array of their addresses; the parent
 * address a node keeps is never followed when freeing.
 *
 * Every string, string list and record the deletion functions hand back
 * to the allocator is appended to a release log, so that "each node is
 * freed exactly once" and "nothing uninitialised is freed" are facts
 * about that log.
 */
module Nodes {
  import opened ParserInternal

  type Text = seq<bv8>

  /**
   * Node kinds. Their numeric codes and the two classification macros
   * live in a header that is not part of this model; the classification
   * below follows the constructors of cue.c (text and time-stamp nodes are
   * leaves, the head node and the markup spans are internal). Any other
   * code is neither, and deletion then frees only the node record.
   */
  datatype NodeKind =
    | Head | ClassSpan | Italic | Bold | Underline | Ruby | RubyText | Voice
    | TextNode | TimeStampNode
    | Unknown(code: int)

  predicate IsLeafKind(k: NodeKind) { k == TextNode || k == TimeStampNode }
  predicate IsInternalKind(k: NodeKind) { !k.Unknown? && !IsLeafKind(k) }

  /** A field of a malloc'ed record that no constructor wrote holds whatever was in memory. */
  datatype Slot<T> = Garbage | Written(value: T)

  /**
   * The storage of a leaf record. The leaf record's declaration is not part
   * of this model; its text and time_stamp fields are taken to share
   * storage, as the members of a union do, so the cell holds whichever
   * value a constructor last wrote. A text leaf's string may be null.
   */
  datatype LeafCell = TextCell(text: Option<Text>) | StampCell(ts: u64)

  /**
   * The concrete record a node points to. For an internal node, children
   * is the children array (None while it is a null pointer) holding the
   * first count entries, and alloc is the capacity it was sized for.
   */
  datatype Body =
    | Internal(classes: Slot<Option<seq<Text>>>, annotation: Option<Text>,
               children: Option<seq<nat>>, count: nat, alloc: nat)
    | Leaf(cell: LeafCell)

  datatype NodeRec = NodeRec(body: Body, kind: NodeKind, parent: Option<nat>)

  /**
   * What the allocator and the string library are handed, in order.
   * StampReleasedAsString is a time stamp's bits handed to
   * webvtt_delete_string as if they were a string pointer.
   */
  datatype Event =
    | StringReleased(str: Option<Text>)
    | StampReleasedAsString(ts: u64)
    | ClassesReleased(classes: Slot<Option<seq<Text>>>)
    | BodyFreed(node: nat)
    | NodeFreed(node: nat)
    | CueHeadRead
    | CueFreed

  /** The children an internal node holds, in order. */
  function ChildList(b: Body): seq<nat>
  {
    if b.Internal? && b.children.Some? then b.children.value else []
  }

  /**
   * The shape attach keeps: capacity grows from 0 in steps of 4, the count
   * never passes it, and the array exists exactly when capacity does and
   * holds one address per child.
   */
  predicate InternalOk(b: Body)
  {
    && b.Internal?
    && b.count <= b.alloc && b.alloc % 4 == 0
    && (b.alloc == 0 <==> b.children.None?)
    && (b.children.Some? ==> |b.children.value| == b.count)
  }

  /** An internal or head node's record right after its constructor filled it. */
  function FreshInternal(classes: Slot<Option<seq<Text>>>, annotation: Option<Text>): (b: Body)
    ensures InternalOk(b) && ChildList(b) == [] && b.count == 0
    ensures b.classes == classes && b.annotation == annotation
  {
    Internal(classes, annotation, None, 0, 0)
  }

  /**
   * A record whose fields that deletion reads were all written, and whose
   * leaf cell holds what its kind says: a string for TEXT, a time stamp
   * for TIME_STAMP.
   */
  predicate Initialised(r: NodeRec)
  {
    match r.body
    case Internal(classes, _, _, _, _) => classes.Written?
    case Leaf(cell) =>
      && (r.kind == TextNode ==> cell.TextCell?)
      && (r.kind == TimeStampNode ==> cell.StampCell?)
  }

  predicate RecordOk(r: NodeRec)
  {
    (r.body.Internal? ==> InternalOk(r.body)) && Initialised(r)
  }

  // ---------------------------------------------------------------------
  // webvtt_attach_internal_node
  // ---------------------------------------------------------------------

  datatype AttachResult = AttachResult(status: Status, body: Body)

  /**
   * Appending a child to an internal node's record: the array grows by 4
   * slots when it is full. A failed reallocation leaves the record as it
   * was (the source's own behaviour on that path is AttachBodyAsWritten).
   */
  function AttachBody(b: Body, child: nat, reallocOk: bool): (r: AttachResult)
    requires InternalOk(b)
    ensures InternalOk(r.body)
    ensures r.body.classes == b.classes && r.body.annotation == b.annotation
    ensures r.status == Success || r.status == OutOfMemory
    // only a full array needs the allocator, so only a full array can fail
    ensures r.status == OutOfMemory <==> b.count == b.alloc && !reallocOk
    ensures r.status == OutOfMemory ==> r.body == b
    // success: the child lands at index count and every earlier child stays put
    ensures r.status == Success ==>
      (ChildList(r.body) == ChildList(b) + [child] && r.body.count == b.count + 1
       && r.body.alloc == if b.count == b.alloc then b.alloc + 4 else b.alloc)
  {
    var grown := Some(ChildList(b) + [child]);
    if b.alloc == b.count then
      if reallocOk then AttachResult(Success, b.(children := grown, count := b.count + 1, alloc := b.alloc + 4))
      else AttachResult(OutOfMemory, b)
    else
      AttachResult(Success, b.(children := grown, count := b.count + 1))
  }

  /** Attaching kids one after another, every reallocation succeeding. */
  function AttachAll(b: Body, kids: seq<nat>): (r: Body)
    requires InternalOk(b)
    ensures InternalOk(r)
  {
    if kids == [] then b
    else AttachBody(AttachAll(b, kids[..|kids| - 1]), kids[|kids| - 1], true).body
  }

  /**
   * Starting from a fresh node, attaching n children leaves them in order
   * in an array whose capacity is the least multiple of 4 that holds them.
   */
  lemma {:induction false} AttachesGrowByFour(b: Body, kids: seq<nat>)
    requires InternalOk(b) && b.alloc == 0
    ensures ChildList(AttachAll(b, kids)) == kids
    ensures AttachAll(b, kids).count == |kids|
    ensures AttachAll(b, kids).alloc % 4 == 0 && |kids| <= AttachAll(b, kids).alloc < |kids| + 4
  {
    if kids != [] {
      var init := kids[..|kids| - 1];
      AttachesGrowByFour(b, init);
      assert kids == init + [kids[|kids| - 1]];
    }
  }

  /** The outcome of a C function that may write through a null pointer. */
  datatype Outcome = Returned(status: Status) | NullWrite

  /**
   * webvtt_attach_internal_node as written: on a full array it raises
   * alloc by 4 before calling realloc, and on failure the null result
   * overwrites the old array pointer. On a later call, an array that is
   * null but not full is written through.
   */
  function AttachBodyAsWritten(b: Body, child: nat, reallocOk: bool): (r: (Outcome, Body))
    requires b.Internal? && b.count <= b.alloc
    ensures r.0 == NullWrite <==> b.count < b.alloc && b.children.None?
    ensures r.0 == Returned(OutOfMemory) <==> b.count == b.alloc && !reallocOk
    ensures r.0 == Returned(OutOfMemory) ==> r.1 == b.(children := None, alloc := b.alloc + 4)
  {
    if b.alloc == b.count then
      if reallocOk then (Returned(Success), b.(children := Some(ChildList(b) + [child]), count := b.count + 1, alloc := b.alloc + 4))
      else (Returned(OutOfMemory), b.(children := None, alloc := b.alloc + 4))
    else if b.children.None? then (NullWrite, b)
    else (Returned(Success), b.(children := Some(ChildList(b) + [child]), count := b.count + 1))
  }

  /** A failed reallocation on a full, non-empty array loses every child it held. */
  lemma AttachAsWrittenLosesChildren(b: Body, child: nat)
    requires InternalOk(b) && b.count == b.alloc && b.count > 0
    ensures var r := AttachBodyAsWritten(b, child, false);
      r.0 == Returned(OutOfMemory) && r.1.count == b.count && ChildList(r.1) == [] && !InternalOk(r.1)
  {
  }

  /**
   * A fresh node whose first attach fails to allocate is left with room
   * for 4 children and no array, so the next attach writes through null.
   */
  lemma AttachAsWrittenThenNullWrite(classes: Slot<Option<seq<Text>>>, annotation: Option<Text>, first: nat, second: nat)
    ensures var b0 := FreshInternal(classes, annotation);
      var r1 := AttachBodyAsWritten(b0, first, false);
      r1.0 == Returned(OutOfMemory) && AttachBodyAsWritten(r1.1, second, true).0 == NullWrite
  {
  }

  /** The corrected attach never leaves a node in that state, whatever the allocator answers. */
  lemma AttachNeverWritesThroughNull(b: Body, first: nat, second: nat, ok1: bool, ok2: bool)
    requires InternalOk(b)
    ensures AttachBodyAsWritten(AttachBody(b, first, ok1).body, second, ok2).0 != NullWrite
  {
  }

  // ---------------------------------------------------------------------
  // Constructors whose source leaves a field unwritten
  // ---------------------------------------------------------------------

  /** webvtt_create_head_node as written never sets css_classes_ptr. */
  function HeadBodyAsWritten(): (b: Body)
    ensures InternalOk(b) && !Initialised(NodeRec(b, Head, None))
  {
    Internal(Garbage, None, None, 0, 0)
  }

  /** The head record with a null class list, as the rest of the model builds it. */
  function HeadBody(): (b: Body)
    ensures InternalOk(b) && Initialised(NodeRec(b, Head, None)) && ChildList(b) == []
  {
    FreshInternal(Written(None), None)
  }

  /**
   * webvtt_create_text_leaf_node as written: the null test is inverted, so
   * a successful malloc is answered OUT_OF_MEMORY (the record leaks) and a
   * failed one is written through; the status of webvtt_create_node is
   * then ignored.
   */
  function TextLeafAsWritten(leafOk: bool, nodeOk: bool): (r: Outcome)
    ensures r == Returned(OutOfMemory) <==> leafOk
    ensures r == NullWrite <==> !leafOk
  {
    if leafOk then Returned(OutOfMemory) else NullWrite
  }

  /** No allocator answer lets the text-leaf constructor as written create a node. */
  lemma TextLeafAsWrittenNeverSucceeds(leafOk: bool, nodeOk: bool)
    ensures TextLeafAsWritten(leafOk, nodeOk) != Returned(Success)
  {
  }

  // ---------------------------------------------------------------------
  // The tree view and what deleting it releases
  // ---------------------------------------------------------------------

  /** A subtree as webvtt_delete_node walks it. */
  datatype Tree = Tree(addr: nat, kind: NodeKind, body: Body, kids: seq<Tree>)

  /**
   * t is the subtree rooted at address a of the arena: each node's kind
   * and record are the arena's, an internal node has one subtree per
   * entry of its children array, and a node of any other kind has none
   * (deletion does not look beyond it).
   */
  ghost predicate Represents(nodes: seq<NodeRec>, a: nat, t: Tree)
    decreases t
  {
    && a < |nodes| && t.addr == a
    && nodes[a].kind == t.kind && nodes[a].body == t.body
    && (IsLeafKind(t.kind) ==> t.body.Leaf?)
    && (IsInternalKind(t.kind) ==> InternalOk(t.body))
    && |t.kids| == (if IsInternalKind(t.kind) then t.body.count else 0)
    && (IsInternalKind(t.kind) ==>
         forall i :: 0 <= i < |t.kids| ==> Represents(nodes, ChildList(t.body)[i], t.kids[i]))
  }

  /**
   * The releases of webvtt_delete_leaf_node as written: it reads the cell
   * as text whatever the leaf's kind, so on a TIME_STAMP leaf a non-zero
   * time stamp goes to webvtt_delete_string and a zero one is taken for a
   * null string.
   */
  function LeafReleasesAsWritten(t: Tree): (r: seq<Event>)
    ensures t.body.Leaf? ==> |r| >= 1 && r[|r| - 1] == BodyFreed(t.addr)
    ensures t.body.Leaf? && t.body.cell.StampCell? ==>
      (t.body.cell.ts != 0 <==> StampReleasedAsString(t.body.cell.ts) in r)
  {
    if t.body.Leaf? then
      match t.body.cell
      case TextCell(text) => (if text.Some? then [StringReleased(text)] else []) + [BodyFreed(t.addr)]
      case StampCell(ts) => (if ts != 0 then [StampReleasedAsString(ts)] else []) + [BodyFreed(t.addr)]
    else []
  }

  /**
   * The releases of webvtt_delete_leaf_node, corrected: the string of a
   * TEXT leaf when it is not null, then the record; a time stamp is never
   * read as a string.
   */
  function LeafReleases(t: Tree): seq<Event>
  {
    if t.body.Leaf? then
      (if t.body.cell.TextCell? && t.body.cell.text.Some? then [StringReleased(t.body.cell.text)] else [])
      + [BodyFreed(t.addr)]
    else []
  }

  /** On text leaves the two deletions agree; they differ only on a non-zero time stamp. */
  lemma LeafReleasesAgree(t: Tree)
    requires t.body.Leaf?
    ensures LeafReleasesAsWritten(t) == LeafReleases(t) <==> !(t.body.cell.StampCell? && t.body.cell.ts != 0)
  {
    if t.body.cell.StampCell? && t.body.cell.ts != 0 {
      assert LeafReleasesAsWritten(t)[0] != LeafReleases(t)[0];
    }
  }

  /** The releases of webvtt_delete_node on subtree t. */
  function Releases(t: Tree): seq<Event>
    decreases t, |t.kids| + 2
  {
    if IsLeafKind(t.kind) then LeafReleases(t) + [NodeFreed(t.addr)]
    else if IsInternalKind(t.kind) then InternalReleases(t) + [NodeFreed(t.addr)]
    else [NodeFreed(t.addr)]
  }

  /** The releases of webvtt_delete_internal_node: class list, annotation, children, record. */
  function InternalReleases(t: Tree): seq<Event>
    decreases t, |t.kids| + 1
  {
    if t.body.Internal? then
      [ClassesReleased(t.body.classes)]
      + (if t.body.annotation.Some? then [StringReleased(t.body.annotation)] else [])
      + ChildrenReleases(t, |t.kids|)
      + [BodyFreed(t.addr)]
    else []
  }

  /** The releases of the first i rounds of the loop over the children. */
  function ChildrenReleases(t: Tree, i: nat): seq<Event>
    requires i <= |t.kids|
    decreases t, i
  {
    if i == 0 then [] else ChildrenReleases(t, i - 1) + Releases(t.kids[i - 1])
  }

  lemma ChildrenReleasesNext(t: Tree, i: nat)
    requires i < |t.kids|
    ensures ChildrenReleases(t, i + 1) == ChildrenReleases(t, i) + Releases(t.kids[i])
  {
  }

  lemma InternalReleasesSplit(t: Tree)
    requires t.body.Internal?
    ensures InternalReleases(t) == [ClassesReleased(t.body.classes)]
      + (if t.body.annotation.Some? then [StringReleased(t.body.annotation)] else [])
      + ChildrenReleases(t, |t.kids|) + [BodyFreed(t.addr)]
  {
  }

  /** The addresses of the subtree in post-order: each node after its children. */
  function PostOrder(t: Tree): seq<nat>
    decreases t, |t.kids| + 1
  {
    KidsPostOrder(t, |t.kids|) + [t.addr]
  }

  function KidsPostOrder(t: Tree, i: nat): seq<nat>
    requires i <= |t.kids|
    decreases t, i
  {
    if i == 0 then [] else KidsPostOrder(t, i - 1) + PostOrder(t.kids[i - 1])
  }

  /** The addresses of the node records a release log frees, in order. */
  function FreedNodes(log: seq<Event>): seq<nat>
  {
    FreedIn(log, |log|)
  }

  /** The node records freed by the first n events of log. */
  function FreedIn(log: seq<Event>, n: nat): seq<nat>
    requires n <= |log|
  {
    if n == 0 then []
    else FreedIn(log, n - 1) + (if log[n - 1].NodeFreed? then [log[n - 1].node] else [])
  }

  lemma FreedNodesAppend(a: seq<Event>, b: seq<Event>)
    ensures FreedNodes(a + b) == FreedNodes(a) + FreedNodes(b)
  {
    FreedInAppend(a, b, |b|);
  }

  lemma {:induction false} FreedInAppend(a: seq<Event>, b: seq<Event>, k: nat)
    requires k <= |b|
    ensures FreedIn(a + b, |a| + k) == FreedIn(a, |a|) + FreedIn(b, k)
  {
    if k == 0 {
      FreedInPrefix(a, b, |a|);
    } else {
      FreedInAppend(a, b, k - 1);
      assert (a + b)[|a| + k - 1] == b[k - 1];
    }
  }

  /** Events past n do not change what the first n free. */
  lemma {:induction false} FreedInPrefix(a: seq<Event>, b: seq<Event>, n: nat)
    requires n <= |a|
    ensures FreedIn(a + b, n) == FreedIn(a, n)
  {
    if n > 0 {
      FreedInPrefix(a, b, n - 1);
      assert (a + b)[n - 1] == a[n - 1];
    }
  }

  /** What Represents says about the children of an internal node. */
  ghost predicate KidsRepresent(nodes: seq<NodeRec>, t: Tree)
    decreases t, 0
  {
    && IsInternalKind(t.kind) && InternalOk(t.body) && |t.kids| == t.body.count
    && forall j :: 0 <= j < |t.kids| ==> Represents(nodes, ChildList(t.body)[j], t.kids[j])
  }

  lemma RepresentsKids(nodes: seq<NodeRec>, a: nat, t: Tree)
    requires Represents(nodes, a, t) && IsInternalKind(t.kind)
    ensures KidsRepresent(nodes, t)
  {
  }

  /** Around its children's releases, webvtt_delete_internal_node frees no node record. */
  lemma FreedByInternal(t: Tree)
    requires t.body.Internal?
    ensures FreedNodes(InternalReleases(t)) == FreedNodes(ChildrenReleases(t, |t.kids|))
  {
    InternalReleasesSplit(t);
    FreedAround([ClassesReleased(t.body.classes)]
      + (if t.body.annotation.Some? then [StringReleased(t.body.annotation)] else []),
      ChildrenReleases(t, |t.kids|), BodyFreed(t.addr));
  }

  lemma FreedAround(head: seq<Event>, middle: seq<Event>, last: Event)
    requires forall i :: 0 <= i < |head| ==> !head[i].NodeFreed?
    requires !last.NodeFreed?
    ensures FreedNodes(head + middle + [last]) == FreedNodes(middle)
  {
    FreedNodesAppend(head + middle, [last]);
    FreedNodesAppend(head, middle);
    FreedNoneOf(head);
    FreedNoneOf([last]);
  }

  lemma FreedOne(a: nat)
    ensures FreedNodes([NodeFreed(a)]) == [a]
  {
    assert FreedIn([NodeFreed(a)], 0) == [];
  }

  lemma FreedNoneOf(log: seq<Event>)
    requires forall i :: 0 <= i < |log| ==> !log[i].NodeFreed?
    ensures FreedNodes(log) == []
  {
    FreedNoneIn(log, |log|);
  }

  lemma {:induction false} FreedNoneIn(log: seq<Event>, n: nat)
    requires forall i :: 0 <= i < |log| ==> !log[i].NodeFreed?
    requires n <= |log|
    ensures FreedIn(log, n) == []
  {
    if n > 0 {
      FreedNoneIn(log, n - 1);
    }
  }

  lemma FreedByLeaf(t: Tree)
    ensures FreedNodes(LeafReleases(t)) == []
  {
    FreedNoneOf(LeafReleases(t));
  }

  /**
   * Deleting a subtree frees the node records of its nodes in post-order,
   * children before their parent, each as often as it occurs in the tree:
   * exactly once for a tree whose nodes are all distinct, which is what
   * ownership of children guarantees.
   */
  lemma {:induction false} FreesEachNodeOnce(nodes: seq<NodeRec>, a: nat, t: Tree)
    requires Represents(nodes, a, t)
    ensures FreedNodes(Releases(t)) == PostOrder(t)
    decreases t, 1
  {
    if IsInternalKind(t.kind) {
      RepresentsKids(nodes, a, t);
      FreesChildren(nodes, t, |t.kids|);
      FreedByInternal(t);
      FreedNodesAppend(InternalReleases(t), [NodeFreed(t.addr)]);
    } else if IsLeafKind(t.kind) {
      FreedByLeaf(t);
      FreedNodesAppend(LeafReleases(t), [NodeFreed(t.addr)]);
    }
    FreedOne(t.addr);
  }

  lemma {:induction false} FreesChildren(nodes: seq<NodeRec>, t: Tree, i: nat)
    requires KidsRepresent(nodes, t) && i <= |t.kids|
    ensures FreedNodes(ChildrenReleases(t, i)) == KidsPostOrder(t, i)
    decreases t, 0, i
  {
    if i > 0 {
      FreesChildren(nodes, t, i - 1);
      FreesEachNodeOnce(nodes, ChildList(t.body)[i - 1], t.kids[i - 1]);
      ChildrenReleasesNext(t, i - 1);
      FreedNodesAppend(ChildrenReleases(t, i - 1), Releases(t.kids[i - 1]));
    }
  }

  /** A log in which neither an uninitialised field nor a time stamp reached the string library. */
  predicate NoGarbage(log: seq<Event>)
  {
    forall i :: 0 <= i < |log| ==> !log[i].StampReleasedAsString? && !(log[i].ClassesReleased? && log[i].classes.Garbage?)
  }

  /** A log that says nothing about the cue record. */
  predicate NoCueEvents(log: seq<Event>)
  {
    forall i :: 0 <= i < |log| ==> !log[i].CueHeadRead? && !log[i].CueFreed?
  }

  /**
   * Deleting a subtree whose records were all filled by the constructors
   * of this model hands no uninitialised field to the string library, and
   * touches nothing but node records and their strings.
   */
  lemma {:induction false} InitialisedTreeReleasesCleanly(nodes: seq<NodeRec>, a: nat, t: Tree)
    requires forall b :: 0 <= b < |nodes| ==> Initialised(nodes[b])
    requires Represents(nodes, a, t)
    ensures NoGarbage(Releases(t)) && NoCueEvents(Releases(t))
    decreases t, |t.kids| + 2
  {
    assert Initialised(nodes[a]);
    if IsInternalKind(t.kind) {
      ChildrenReleaseCleanly(nodes, t, |t.kids|);
    }
  }

  lemma {:induction false} ChildrenReleaseCleanly(nodes: seq<NodeRec>, t: Tree, i: nat)
    requires forall b :: 0 <= b < |nodes| ==> Initialised(nodes[b])
    requires IsInternalKind(t.kind) && InternalOk(t.body) && |t.kids| == t.body.count
    requires forall j :: 0 <= j < |t.kids| ==> Represents(nodes, ChildList(t.body)[j], t.kids[j])
    requires i <= |t.kids|
    ensures NoGarbage(ChildrenReleases(t, i)) && NoCueEvents(ChildrenReleases(t, i))
    decreases t, i
  {
    if i > 0 {
      ChildrenReleaseCleanly(nodes, t, i - 1);
      InitialisedTreeReleasesCleanly(nodes, ChildList(t.body)[i - 1], t.kids[i - 1]);
    }
  }

  /** Deleting a head node built as written hands its unwritten class-list pointer to the string library. */
  lemma HeadAsWrittenReleasesGarbage(a: nat)
    ensures !NoGarbage(Releases(Tree(a, Head, HeadBodyAsWritten(), [])))
  {
    assert Releases(Tree(a, Head, HeadBodyAsWritten(), []))[0] == ClassesReleased(Garbage);
  }

  /**
   * Deleting a time-stamp leaf as written hands its time stamp, when not
   * zero, to the string library as a string pointer.
   */
  lemma TimeStampLeafAsWrittenReleasesStamp(a: nat, ts: u64)
    requires ts != 0
    ensures !NoGarbage(LeafReleasesAsWritten(Tree(a, TimeStampNode, Leaf(StampCell(ts)), [])))
  {
    assert LeafReleasesAsWritten(Tree(a, TimeStampNode, Leaf(StampCell(ts)), []))[0] == StampReleasedAsString(ts);
  }

  // ---------------------------------------------------------------------
  // The arena
  // ---------------------------------------------------------------------

  /** Every node record malloc'ed so far, by address, and the release log. */
  class NodeArena {
    var nodes: seq<NodeRec>
    var log: seq<Event>

    ghost predicate Valid()
      reads this
    {
      forall a :: 0 <= a < |nodes| ==> RecordOk(nodes[a])
    }

    constructor()
      ensures Valid() && nodes == [] && log == []
    {
      nodes, log := [], [];
    }

    /**
     * webvtt_create_node: a new record holding the concrete record, kind
     * and parent; nodeOk says whether malloc succeeded. The node pointer
     * is written only on success.
     */
    method CreateNode(body: Body, kind: NodeKind, parent: Option<nat>, nodeOk: bool)
      returns (status: Status, p: Option<nat>)
      requires Valid() && RecordOk(NodeRec(body, kind, parent))
      modifies this`nodes
      ensures Valid()
      ensures nodeOk ==> (status == Success && p == Some(|old(nodes)|) && nodes == old(nodes) + [NodeRec(body, kind, parent)])
      ensures !nodeOk ==> (status == OutOfMemory && p == None && nodes == old(nodes))
    {
      if !nodeOk {
        return OutOfMemory, None;
      }
      p := Some(|nodes|);
      nodes := nodes + [NodeRec(body, kind, parent)];
      status := Success;
    }

    /**
     * webvtt_create_internal_node: an internal record with the given class
     * list and annotation and no children; bodyOk and nodeOk answer the
     * two mallocs (a failed second one leaks the first record).
     */
    method CreateInternalNode(parent: Option<nat>, kind: NodeKind, classes: Option<seq<Text>>, annotation: Option<Text>,
                              bodyOk: bool, nodeOk: bool)
      returns (status: Status, p: Option<nat>)
      requires Valid()
      modifies this`nodes
      ensures Valid()
      ensures bodyOk && nodeOk ==> (status == Success && p == Some(|old(nodes)|)
        && nodes == old(nodes) + [NodeRec(FreshInternal(Written(classes), annotation), kind, parent)])
      ensures !(bodyOk && nodeOk) ==> (status == OutOfMemory && p == None && nodes == old(nodes))
    {
      if !bodyOk {
        return OutOfMemory, None;
      }
      status, p := CreateNode(FreshInternal(Written(classes), annotation), kind, parent, nodeOk);
    }

    /** webvtt_create_head_node, with the class list set to null. */
    method CreateHeadNode(bodyOk: bool, nodeOk: bool) returns (status: Status, p: Option<nat>)
      requires Valid()
      modifies this`nodes
      ensures Valid()
      ensures bodyOk && nodeOk ==> (status == Success && p == Some(|old(nodes)|)
        && nodes == old(nodes) + [NodeRec(HeadBody(), Head, None)])
      ensures !(bodyOk && nodeOk) ==> (status == OutOfMemory && p == None && nodes == old(nodes))
    {
      if !bodyOk {
        return OutOfMemory, None;
      }
      status, p := CreateNode(HeadBody(), Head, None, nodeOk);
    }

    /** webvtt_create_time_stamp_leaf_node: a new TIME_STAMP leaf whose cell holds the time stamp. */
    method CreateTimeStampLeaf(parent: Option<nat>, ts: u64, leafOk: bool, nodeOk: bool)
      returns (status: Status, p: Option<nat>)
      requires Valid()
      modifies this`nodes
      ensures Valid()
      ensures leafOk && nodeOk ==> (status == Success && p == Some(|old(nodes)|)
        && nodes == old(nodes) + [NodeRec(Leaf(StampCell(ts)), TimeStampNode, parent)])
      ensures !(leafOk && nodeOk) ==> (status == OutOfMemory && p == None && nodes == old(nodes))
    {
      if !leafOk {
        return OutOfMemory, None;
      }
      status, p := CreateNode(Leaf(StampCell(ts)), TimeStampNode, parent, nodeOk);
    }

    /** webvtt_create_text_leaf_node with the null test the right way round and the node status passed on. */
    method CreateTextLeaf(parent: Option<nat>, text: Option<Text>, leafOk: bool, nodeOk: bool)
      returns (status: Status, p: Option<nat>)
      requires Valid()
      modifies this`nodes
      ensures Valid()
      ensures leafOk && nodeOk ==> (status == Success && p == Some(|old(nodes)|)
        && nodes == old(nodes) + [NodeRec(Leaf(TextCell(text)), TextNode, parent)])
      ensures !(leafOk && nodeOk) ==> (status == OutOfMemory && p == None && nodes == old(nodes))
    {
      if !leafOk {
        return OutOfMemory, None;
      }
      status, p := CreateNode(Leaf(TextCell(text)), TextNode, parent, nodeOk);
    }

    /**
     * webvtt_attach_internal_node: current is the internal node to append
     * to and toAttach the child; reallocOk answers realloc when the array
     * is full. Null arguments change nothing.
     */
    method Attach(current: Option<nat>, toAttach: Option<nat>, reallocOk: bool) returns (status: Status)
      requires Valid()
      requires current.Some? ==> current.value < |nodes| && nodes[current.value].body.Internal?
      modifies this`nodes
      ensures Valid()
      ensures current.None? || toAttach.None? ==> (status == InvalidParam && nodes == old(nodes))
      ensures current.Some? && toAttach.Some? ==>
        (var c := current.value;
         var r := AttachBody(old(nodes)[c].body, toAttach.value, reallocOk);
         status == r.status && nodes == old(nodes)[c := old(nodes)[c].(body := r.body)])
    {
      if current.None? || toAttach.None? {
        return InvalidParam;
      }
      var c := current.value;
      var b := nodes[c].body;
      assert RecordOk(nodes[c]);
      if b.alloc == b.count {
        if !reallocOk {
          return OutOfMemory;
        }
        b := b.(alloc := b.alloc + 4);
      }
      b := b.(children := Some(ChildList(b) + [toAttach.value]), count := b.count + 1);
      nodes := nodes[c := nodes[c].(body := b)];
      status := Success;
    }

    /** webvtt_delete_node: nothing for null, otherwise the concrete record by kind and then the node. */
    method DeleteNode(p: Option<nat>, ghost t: Tree)
      requires p.Some? ==> Represents(nodes, p.value, t)
      modifies this`log
      ensures log == old(log) + (if p.Some? then Releases(t) else [])
      decreases t, |t.kids| + 2
    {
      if p.Some? {
        var kind := nodes[p.value].kind;
        if IsLeafKind(kind) {
          DeleteLeaf(p.value, t);
        } else if IsInternalKind(kind) {
          DeleteInternal(p.value, t);
        }
        log := log + [NodeFreed(p.value)];
      }
    }

    /** webvtt_delete_internal_node: class list, annotation, each child in turn, then the record. */
    method DeleteInternal(a: nat, ghost t: Tree)
      requires Represents(nodes, a, t) && IsInternalKind(t.kind)
      modifies this`log
      ensures log == old(log) + InternalReleases(t)
      decreases t, |t.kids| + 1
    {
      RepresentsKids(nodes, a, t);
      var b := nodes[a].body;
      log := log + [ClassesReleased(b.classes)];
      if b.annotation.Some? {
        log := log + [StringReleased(b.annotation)];
      }
      DeleteChildren(ChildList(b), b.count, t);
      log := log + [BodyFreed(a)];
      InternalReleasesSplit(t);
    }

    /** The for loop of webvtt_delete_internal_node over the first count entries of the children array. */
    method DeleteChildren(kids: seq<nat>, count: nat, ghost t: Tree)
      requires KidsRepresent(nodes, t) && kids == ChildList(t.body) && count == |t.kids|
      modifies this`log
      ensures log == old(log) + ChildrenReleases(t, |t.kids|)
      decreases t, 0
    {
      for i := 0 to count
        invariant log == old(log) + ChildrenReleases(t, i)
      {
        ghost var done := log;
        DeleteNode(Some(kids[i]), t.kids[i]);
        assert log == old(log) + ChildrenReleases(t, i + 1) by {
          ChildrenReleasesNext(t, i);
          assert log == done + Releases(t.kids[i]);
        }
      }
    }

    /** webvtt_delete_leaf_node, corrected: the text of a TEXT leaf when it is not null, then the record. */
    method DeleteLeaf(a: nat, ghost t: Tree)
      requires Represents(nodes, a, t) && IsLeafKind(t.kind)
      modifies this`log
      ensures log == old(log) + LeafReleases(t)
    {
      var b := nodes[a].body;
      if b.cell.TextCell? && b.cell.text.Some? {
        log := log + [StringReleased(b.cell.text)];
      }
      log := log + [BodyFreed(a)];
    }
  }
}
