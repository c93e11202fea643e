/**
 * The cue record of cue.c: creation with the defaults of the WebVTT
 * parsing algorithm, validation of its times, and deletion through the
 * caller's handle, which also deletes the cue's markup tree.
 */
module Cues {
  import opened ParserInternal
  import opened Nodes

  datatype Align = AlignStart | AlignMiddle | AlignEnd | AlignLeft | AlignRight
  datatype Writing = Horizontal | VerticalRL | VerticalLR
  /** The line setting: the sentinel WEBVTT_AUTO or a line number. */
  datatype LinePosition = Auto | LineNo(no: int)
  datatype CueSettings = CueSettings(vertical: Writing, line: LinePosition, position: nat, size: nat, align: Align)

  /**
   * A cue. webvtt_alloc0 zero-fills the record, so a fresh cue has null
   * id, payload and markup tree and both times 0.
   */
  datatype Cue = Cue(id: Option<Text>, from: u64, until: u64, snapToLines: bool,
                     settings: CueSettings, payload: Option<Text>, nodeHead: Option<nat>)

  /** The record webvtt_create_cue hands out: zero-filled, then the five defaults set. */
  function NewCue(): Cue
  {
    Cue(None, 0, 0, true, CueSettings(Horizontal, Auto, 50, 100, AlignMiddle), None, None)
  }

  /**
   * webvtt_validate_cue: 1 for a cue that ends after it starts, 0 for
   * anything else, a null cue included. The payload is not looked at.
   */
  function ValidateCue(cue: Option<Cue>): (r: int)
    ensures r == 0 || r == 1
    ensures r == 1 <==> cue.Some? && cue.value.from < cue.value.until
  {
    if cue.Some? then
      if cue.value.until <= cue.value.from then 0 else 1
    else 0
  }

  /** A cue fresh from webvtt_create_cue does not validate until its times are set. */
  lemma FreshCueDoesNotValidate()
    ensures ValidateCue(Some(NewCue())) == 0
    ensures forall from: u64, until: u64 ::
      ValidateCue(Some(NewCue().(from := from, until := until))) == 1 <==> from < until
  {
  }

  /** The caller's webvtt_cue variable, whose address is passed as pcue. */
  class CueHandle {
    var cue: Option<Cue>

    constructor(c: Option<Cue>)
      ensures cue == c
    {
      cue := c;
    }
  }

  /**
   * webvtt_create_cue: pcue null is refused; allocOk says whether the
   * allocation succeeded, and only then is the handle written.
   */
  method CreateCue(pcue: CueHandle?, allocOk: bool) returns (status: Status)
    modifies pcue
    ensures pcue == null ==> status == InvalidParam
    ensures pcue != null && !allocOk ==> (status == OutOfMemory && pcue.cue == old(pcue.cue))
    ensures pcue != null && allocOk ==>
      (status == Success && pcue.cue.Some?
       && var c := pcue.cue.value;
       // the defaults of the parsing algorithm
       && c.snapToLines && c.settings.position == 50 && c.settings.size == 100
       && c.settings.align == AlignMiddle && c.settings.line == Auto && c.settings.vertical == Horizontal
       // the rest of the zero-filled record
       && c.from == 0 && c.until == 0 && c.id == None && c.payload == None && c.nodeHead == None)
  {
    if pcue == null {
      return InvalidParam;
    }
    if !allocOk {
      return OutOfMemory;
    }
    pcue.cue := Some(NewCue());
    status := Success;
  }

  /**
   * What deleting cue c releases, with the node_head field read before the
   * record is freed; t is the tree under node_head.
   */
  function CueReleases(c: Cue, t: Tree): seq<Event>
  {
    [CueHeadRead, StringReleased(c.id), StringReleased(c.payload), CueFreed]
    + (if c.nodeHead.Some? then Releases(t) else [])
  }

  /** What webvtt_delete_cue as written releases: node_head is read after the record is freed. */
  function CueReleasesAsWritten(c: Cue, t: Tree): (r: seq<Event>)
    // the corrected releases, with the read of node_head moved after the free
    ensures var fixed := CueReleases(c, t);
      r == fixed[1..4] + [fixed[0]] + fixed[4..]
  {
    [StringReleased(c.id), StringReleased(c.payload), CueFreed, CueHeadRead]
    + (if c.nodeHead.Some? then Releases(t) else [])
  }

  /** The cue record is read after it was freed. */
  predicate ReadAfterFree(log: seq<Event>)
  {
    exists i, j :: 0 <= i < j < |log| && log[i] == CueFreed && log[j] == CueHeadRead
  }

  lemma DeleteCueAsWrittenReadsFreedCue(c: Cue, t: Tree)
    ensures ReadAfterFree(CueReleasesAsWritten(c, t))
  {
    var log := CueReleasesAsWritten(c, t);
    assert log[2] == CueFreed && log[3] == CueHeadRead;
  }

  /**
   * Deleting a cue whose tree was built by the node constructors of this
   * model reads nothing freed, hands nothing uninitialised to the string
   * library, and frees each node record of the tree once, children first.
   */
  lemma DeleteCueReleasesCleanly(nodes: seq<NodeRec>, c: Cue, t: Tree)
    requires forall b :: 0 <= b < |nodes| ==> Initialised(nodes[b])
    requires c.nodeHead.Some? ==> Represents(nodes, c.nodeHead.value, t)
    ensures !ReadAfterFree(CueReleases(c, t)) && NoGarbage(CueReleases(c, t))
    ensures FreedNodes(CueReleases(c, t)) == if c.nodeHead.Some? then PostOrder(t) else []
  {
    var own := [CueHeadRead, StringReleased(c.id), StringReleased(c.payload), CueFreed];
    var tree := if c.nodeHead.Some? then Releases(t) else [];
    if c.nodeHead.Some? {
      InitialisedTreeReleasesCleanly(nodes, c.nodeHead.value, t);
      FreesEachNodeOnce(nodes, c.nodeHead.value, t);
    }
    assert NoCueEvents(tree) && NoGarbage(tree);
    var log := own + tree;
    forall i, j | 0 <= i < j < |log| && log[i] == CueFreed
      ensures log[j] != CueHeadRead
    {
      assert i == 3;
      assert log[j] == tree[j - 4];
    }
    FreedNoneOf(own);
    FreedNodesAppend(own, tree);
  }

  /**
   * webvtt_delete_cue: nothing for a null pcue or a null cue; otherwise
   * the handle is nulled and the id, payload, record and markup tree are
   * released, with node_head read before the record is freed.
   */
  method DeleteCue(pcue: CueHandle?, arena: NodeArena, ghost t: Tree)
    requires pcue != null && pcue.cue.Some? && pcue.cue.value.nodeHead.Some? ==>
      Represents(arena.nodes, pcue.cue.value.nodeHead.value, t)
    modifies pcue, arena`log
    ensures pcue == null || old(pcue.cue) == None ==> arena.log == old(arena.log)
    ensures pcue != null && old(pcue.cue) == None ==> pcue.cue == None
    ensures pcue != null && old(pcue.cue).Some? ==>
      (pcue.cue == None && arena.log == old(arena.log) + CueReleases(old(pcue.cue).value, t))
  {
    if pcue != null && pcue.cue.Some? {
      var cue := pcue.cue.value;
      pcue.cue := None;
      var head := cue.nodeHead;
      arena.log := arena.log + [CueHeadRead];
      arena.log := arena.log + [StringReleased(cue.id)];
      arena.log := arena.log + [StringReleased(cue.payload)];
      arena.log := arena.log + [CueFreed];
      arena.DeleteNode(head, t);
    }
  }
}
