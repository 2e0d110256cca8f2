/** Loading the neighbourhood the cascade walks, and why it is enough. */
module Loader {
  import opened Wrappers
  import opened Authz
  import opened Cascade

  /** A document row; its subject carries the workflow and the state. */
  datatype Document = Document(uid: string, subject: Subject, lockUser: int, lockExpires: int, typeKey: string)

  datatype Version = Version(id: int, title: string, content: string)

  datatype ElementType = ElementType(key: string)

  /** An unchanging database. A workflow is which of its states are publishable, and
      references reads the document uids out of a version's content, or fails. */
  datatype Database = Database(
    documents: map<int, Document>,
    idOfUID: map<string, int>,
    workflows: map<int, map<string, bool>>,
    checkedIn: map<int, Version>,
    types: map<string, ElementType>,
    references: (ElementType, string) -> Option<seq<string>>)

  /** A uid names an existing row, and no row has the id zero. */
  ghost predicate Integrity(db: Database) {
    && 0 !in db.documents
    && forall uid :: uid in db.idOfUID ==> db.idOfUID[uid] in db.documents
  }

  datatype Error = NotFound | BadContent

  function Resolve(db: Database, uid: string): Ref {
    Ref(uid, if uid in db.idOfUID then db.idOfUID[uid] else 0)
  }

  function ResolveAll(db: Database, uids: seq<string>): (refs: seq<Ref>)
    ensures |refs| == |uids| && forall k :: 0 <= k < |refs| ==> refs[k] == Resolve(db, uids[k])
  {
    seq(|uids|, k requires 0 <= k < |uids| => Resolve(db, uids[k]))
  }

  /** The newest checked-in version, or the zero version where there is none. */
  function Pinned(db: Database, id: int): Version {
    if id in db.checkedIn then db.checkedIn[id] else Version(0, "", "")
  }

  /** The references of a version's content. */
  function ContentRefs(db: Database, typeKey: string, v: Version): Result<seq<Ref>, Error> {
    if v.id == 0 then Ok([])
    else if typeKey !in db.types then Err(NotFound)
    else
      match db.references(db.types[typeKey], v.content)
      case None => Err(BadContent)
      case Some(uids) => Ok(ResolveAll(db, uids))
  }

  /** The node of one document, read straight off the database. */
  function NodeOf(db: Database, id: int): Result<Node, Error> {
    if id !in db.documents then Err(NotFound)
    else
      var d := db.documents[id];
      if d.subject.workflow !in db.workflows then Err(NotFound)
      else
        var wf, v := db.workflows[d.subject.workflow], Pinned(db, id);
        match ContentRefs(db, d.typeKey, v)
        case Err(e) => Err(e)
        case Ok(refs) =>
          Ok(Node(d.uid, v.title, d.subject, d.lockUser, d.lockExpires,
                  d.subject.state in wf && wf[d.subject.state], v.id, refs))
  }

  // ---------------------------------------------------------------------
  // What reading a document means
  // ---------------------------------------------------------------------

  /** There is a checked-in version to pin. */
  ghost predicate HasVersion(db: Database, id: int) {
    id in db.checkedIn && db.checkedIn[id].id != 0
  }

  /** The uids that the pinned content names, in order. */
  ghost predicate Refers(db: Database, id: int, uids: seq<string>) {
    && HasVersion(db, id) && id in db.documents && db.documents[id].typeKey in db.types
    && db.references(db.types[db.documents[id].typeKey], db.checkedIn[id].content) == Some(uids)
  }

  /** The row and its workflow are there, and the references of its pinned content can be read. */
  ghost predicate Readable(db: Database, id: int) {
    && id in db.documents && db.documents[id].subject.workflow in db.workflows
    && (HasVersion(db, id) ==> exists uids :: Refers(db, id, uids))
  }

  /** A node holds what the tables hold: the row's own columns, whether its workflow
      calls its state publishable, and a reference for each uid its pinned content
      names, in order, with the id of the row that has the uid if one does. */
  ghost predicate Holds(db: Database, id: int, n: Node)
  {
    && id in db.documents && db.documents[id].subject.workflow in db.workflows
    && var d, wf := db.documents[id], db.workflows[db.documents[id].subject.workflow];
    && n.uid == d.uid && n.subject == d.subject && n.lockUser == d.lockUser && n.lockExpires == d.lockExpires
    && (n.publishable <==> d.subject.state in wf && wf[d.subject.state])
    && (id in db.checkedIn ==> n.title == db.checkedIn[id].title && n.versionID == db.checkedIn[id].id)
    && (id !in db.checkedIn ==> n.title == "" && n.versionID == 0)
    && (!HasVersion(db, id) ==> n.refs == [])
    && forall uids :: Refers(db, id, uids) ==>
         && |n.refs| == |uids|
         && forall k :: 0 <= k < |uids| ==>
              && n.refs[k].uid == uids[k]
              && (uids[k] in db.idOfUID ==> n.refs[k].id == db.idOfUID[uids[k]])
              && (uids[k] !in db.idOfUID ==> n.refs[k].id == 0)
  }

  /** A document has a node exactly when it can be read, and the node holds what the tables hold. */
  lemma NodeIsRead(db: Database, id: int)
    ensures NodeOf(db, id).Ok? <==> Readable(db, id)
    ensures NodeOf(db, id).Ok? ==> Holds(db, id, NodeOf(db, id).value)
  {
    if id in db.documents && HasVersion(db, id) && db.documents[id].typeKey in db.types {
      var found := db.references(db.types[db.documents[id].typeKey], db.checkedIn[id].content);
      if found.Some? { assert Refers(db, id, found.value); }
    }
  }

  /** m's pinned content names the uid of the row id. */
  ghost predicate RefersTo(db: Database, m: int, id: int) {
    && Readable(db, m)
    && exists uids, k :: Refers(db, m, uids) && 0 <= k < |uids| && uids[k] in db.idOfUID && db.idOfUID[uids[k]] == id
  }

  /** One document leads to another exactly when its pinned content names the other's uid. */
  lemma NamesIsRefersTo(db: Database, m: int, id: int)
    requires Integrity(db)
    ensures Names(db, m, id) <==> RefersTo(db, m, id)
  {
    NodeIsRead(db, m);
    if Names(db, m, id) {
      var node := NodeOf(db, m).value;
      var k :| 0 <= k < |node.refs| && node.refs[k].id == id;
      assert HasVersion(db, m);
      var uids :| Refers(db, m, uids);
      assert node.refs[k].uid == uids[k];
    }
    if RefersTo(db, m, id) {
      var uids, k :| Refers(db, m, uids) && 0 <= k < |uids| && uids[k] in db.idOfUID && db.idOfUID[uids[k]] == id;
      assert NodeOf(db, m).value.refs[k].id == id;
    }
  }

  /** Every document that can be read, as one graph. */
  function Whole(db: Database): map<int, Node> {
    map id | id in db.documents && NodeOf(db, id).Ok? :: NodeOf(db, id).value
  }

  /** id is len references from root, refused documents followed like any other. */
  ghost predicate Follows(db: Database, root: int, id: int, len: nat)
    decreases len
  {
    if len == 0 then id == root
    else exists m :: Follows(db, root, m, len - 1) && RefersTo(db, m, id)
  }

  ghost predicate Names(db: Database, m: int, id: int) {
    && id != 0 && NodeOf(db, m).Ok?
    && exists k :: 0 <= k < |NodeOf(db, m).value.refs| && NodeOf(db, m).value.refs[k].id == id
  }

  ghost predicate Neighbour(db: Database, root: int, id: int) {
    exists len: nat :: Follows(db, root, id, len)
  }

  lemma NeighbourStep(db: Database, root: int, m: int, id: int)
    requires Neighbour(db, root, m) && RefersTo(db, m, id)
    ensures Neighbour(db, root, id)
  {
    var len: nat :| Follows(db, root, m, len);
    assert Follows(db, root, id, len + 1);
  }

  /** The nodes are the database's own. */
  ghost predicate Agrees(db: Database, nodes: map<int, Node>) {
    forall id :: id in nodes ==> NodeOf(db, id) == Ok(nodes[id])
  }

  /** Every resolved reference out of nodes names an id in ids. */
  ghost predicate ClosedIn(nodes: map<int, Node>, ids: set<int>) {
    forall id, k :: id in nodes && 0 <= k < |nodes[id].refs| && nodes[id].refs[k].id != 0 ==>
      nodes[id].refs[k].id in ids
  }

  ghost predicate QueueOK(db: Database, root: int, nodes: map<int, Node>, seen: set<int>, queue: seq<int>) {
    && Agrees(db, nodes)
    && ClosedIn(nodes, seen)
    && root in seen
    && (forall id :: id in seen <==> id in nodes || id in queue)
    && (forall id :: id in seen ==> Neighbour(db, root, id))
    && (forall id :: id in seen && id != root ==> id in db.documents)
  }

  /** The rows a list of references resolves to. */
  function Targets(refs: seq<Ref>): set<int> {
    set k | 0 <= k < |refs| && refs[k].id != 0 :: refs[k].id
  }

  lemma TargetsSnoc(refs: seq<Ref>, ref: Ref)
    ensures Targets(refs + [ref]) == Targets(refs) + (if ref.id == 0 then {} else {ref.id})
  {
    var more := refs + [ref];
    forall k | 0 <= k < |refs| && refs[k].id != 0 ensures refs[k].id in Targets(more) {
      assert more[k] == refs[k];
    }
    if ref.id != 0 { assert more[|refs|].id in Targets(more); }
    forall id | id in Targets(more) && id != ref.id ensures id in Targets(refs) {
      var k :| 0 <= k < |more| && more[k].id != 0 && more[k].id == id;
      assert refs[k].id == id;
    }
  }

  /** Resolves one document's references, queueing each row not met before. */
  method Scan(db: Database, uids: seq<string>, seen: set<int>, queue: seq<int>)
    returns (refs: seq<Ref>, seen': set<int>, queue': seq<int>)
    requires Integrity(db)
    ensures refs == ResolveAll(db, uids)
    ensures seen' == seen + Targets(refs)
    ensures forall id :: id in queue' <==> id in queue || id in seen' - seen
    ensures |db.documents.Keys - seen'| + |queue'| <= |db.documents.Keys - seen| + |queue|
  {
    hide Targets, ResolveAll;
    refs, seen', queue' := [], seen, queue;
    NoTargets(db);
    assert uids[..0] == [];
    for k := 0 to |uids|
      invariant refs == ResolveAll(db, uids[..k])
      invariant Scanned(db, refs, seen, queue, seen', queue')
    {
      var ref := Ref(uids[k], 0);
      ghost var seen0, queue0 := seen', queue';
      if uids[k] in db.idOfUID {
        ref := Ref(uids[k], db.idOfUID[uids[k]]);
        if ref.id !in seen' {
          seen' := seen' + {ref.id};
          queue' := queue' + [ref.id];
        }
      }
      ScanStep(db, refs, seen, queue, seen0, queue0, ref);
      ResolveSnoc(db, uids, k);
      refs := refs + [ref];
    }
    assert uids[..|uids|] == uids;
  }

  /** What scanning refs has done to the ids met and the ids waiting. */
  ghost predicate Scanned(db: Database, refs: seq<Ref>, seen: set<int>, queue: seq<int>, seen': set<int>, queue': seq<int>) {
    && seen' == seen + Targets(refs)
    && (forall id :: id in queue' <==> id in queue || id in seen' - seen)
    && |db.documents.Keys - seen'| + |queue'| <= |db.documents.Keys - seen| + |queue|
  }

  lemma ScanStep(db: Database, refs: seq<Ref>, seen: set<int>, queue: seq<int>, seen0: set<int>, queue0: seq<int>, ref: Ref)
    requires Scanned(db, refs, seen, queue, seen0, queue0)
    requires ref.id != 0 ==> ref.id in db.documents
    ensures if ref.id == 0 || ref.id in seen0 then Scanned(db, refs + [ref], seen, queue, seen0, queue0)
            else Scanned(db, refs + [ref], seen, queue, seen0 + {ref.id}, queue0 + [ref.id])
  {
    hide Targets;
    TargetsSnoc(refs, ref);
    if ref.id == 0 {
    } else if ref.id in seen0 {
      assert seen + (Targets(refs) + {ref.id}) == seen0;
    } else {
      assert seen + (Targets(refs) + {ref.id}) == seen0 + {ref.id};
      OneFewer(db.documents.Keys, seen0, ref.id);
      QueuedNew(seen, queue, seen0, queue0, ref.id);
    }
  }

  lemma QueuedNew(seen: set<int>, queue: seq<int>, seen0: set<int>, queue0: seq<int>, newcomer: int)
    requires seen <= seen0 && newcomer !in seen0
    requires forall id :: id in queue0 <==> id in queue || id in seen0 - seen
    ensures forall id :: id in queue0 + [newcomer] <==> id in queue || id in (seen0 + {newcomer}) - seen
  {
  }

  lemma ResolveSnoc(db: Database, uids: seq<string>, k: nat)
    requires k < |uids|
    ensures ResolveAll(db, uids[..k + 1]) == ResolveAll(db, uids[..k]) + [Resolve(db, uids[k])]
  {
  }

  lemma NoTargets(db: Database)
    ensures Targets([]) == {} && ResolveAll(db, []) == []
  {
  }

  lemma OneFewer(all: set<int>, seen: set<int>, id: int)
    requires id in all && id !in seen
    ensures |all - (seen + {id})| == |all - seen| - 1
  {
    assert all - (seen + {id}) == (all - seen) - {id};
  }

  /** Reads every document reachable from root by following references. */
  method LoadGraph(db: Database, root: int) returns (r: Result<map<int, Node>, Error>)
    requires Integrity(db)
    ensures r.Ok? ==> root in r.value && Agrees(db, r.value) && ClosedIn(r.value, r.value.Keys)
    ensures r.Ok? ==> forall id :: id in r.value <==> Neighbour(db, root, id)
    ensures r.Err? <==> exists id :: Neighbour(db, root, id) && !Readable(db, id)
    ensures r.Ok? ==> forall id :: id in r.value ==> Readable(db, id) && Holds(db, id, r.value[id])
  {
    hide Follows, Names, ContentRefs, Targets, NodeOf, Readable, Holds, HasVersion, Refers;
    var nodes: map<int, Node> := map[];
    var workflows: map<int, map<string, bool>> := map[];
    var types: map<string, ElementType> := map[];
    var seen, queue := {root}, [root];
    RootIsNeighbour(db, root);
    while queue != []
      invariant QueueOK(db, root, nodes, seen, queue)
      invariant forall w :: w in workflows ==> w in db.workflows && workflows[w] == db.workflows[w]
      invariant forall t :: t in types ==> t in db.types && types[t] == db.types[t]
      decreases |db.documents.Keys - seen| + |queue|
    {
      var id := queue[0];
      assert id in queue;
      assert queue == [id] + queue[1..];
      var node: Result<Node, Error>;
      var uids: seq<string>;
      node, uids, workflows, types := ReadNode(db, id, workflows, types);
      if node.Err? {
        NodeIsRead(db, id);
        return Err(node.error);
      }
      ghost var seen0, queue0 := seen, queue[1..];
      var refs;
      refs, seen, queue := Scan(db, uids, seen, queue[1..]);
      NodeLoaded(db, root, nodes, seen0, queue0, id, node.value.(refs := refs), seen, queue);
      nodes := nodes[id := node.value.(refs := refs)];
    }
    LoadedEverything(db, root, nodes, seen);
    LoadedHold(db, root, nodes);
    return Ok(nodes);
  }

  lemma LoadedHold(db: Database, root: int, nodes: map<int, Node>)
    requires Agrees(db, nodes) && forall id :: Neighbour(db, root, id) ==> NodeOf(db, id).Ok?
    ensures forall id :: id in nodes ==> Readable(db, id) && Holds(db, id, nodes[id])
    ensures forall id :: Neighbour(db, root, id) ==> Readable(db, id)
  {
    hide NodeOf, Holds, Readable, Neighbour;
    forall id ensures id in nodes ==> Readable(db, id) && Holds(db, id, nodes[id])
              ensures Neighbour(db, root, id) ==> Readable(db, id) {
      NodeIsRead(db, id);
    }
  }

  /** Reads one row, its workflow and its pinned content, through the caches. The
      references are left to the caller to resolve. */
  method ReadNode(db: Database, id: int, workflows: map<int, map<string, bool>>, types: map<string, ElementType>)
    returns (node: Result<Node, Error>, uids: seq<string>,
             workflows': map<int, map<string, bool>>, types': map<string, ElementType>)
    requires forall w :: w in workflows ==> w in db.workflows && workflows[w] == db.workflows[w]
    requires forall t :: t in types ==> t in db.types && types[t] == db.types[t]
    ensures forall w :: w in workflows' ==> w in db.workflows && workflows'[w] == db.workflows[w]
    ensures forall t :: t in types' ==> t in db.types && types'[t] == db.types[t]
    ensures node.Err? ==> NodeOf(db, id) == Err(node.error)
    ensures node.Ok? ==> NodeOf(db, id) == Ok(node.value.(refs := ResolveAll(db, uids)))
  {
    workflows', types', uids := workflows, types, [];
    if id !in db.documents {
      return Err(NotFound), uids, workflows', types';
    }
    var doc := db.documents[id];
    if doc.subject.workflow !in workflows' {
      if doc.subject.workflow !in db.workflows {
        return Err(NotFound), uids, workflows', types';
      }
      workflows' := workflows'[doc.subject.workflow := db.workflows[doc.subject.workflow]];
    }
    var wf := workflows'[doc.subject.workflow];
    var publishable := doc.subject.state in wf && wf[doc.subject.state];
    var version := Version(0, "", "");
    if id in db.checkedIn {
      version := db.checkedIn[id];
    }
    if version.id != 0 {
      if doc.typeKey !in types' {
        if doc.typeKey !in db.types {
          return Err(NotFound), uids, workflows', types';
        }
        types' := types'[doc.typeKey := db.types[doc.typeKey]];
      }
      match db.references(types'[doc.typeKey], version.content)
      case None => return Err(BadContent), uids, workflows', types';
      case Some(found) => uids := found;
    }
    node := Ok(Node(doc.uid, version.title, doc.subject, doc.lockUser, doc.lockExpires, publishable, version.id, []));
  }

  lemma RootIsNeighbour(db: Database, root: int)
    ensures Neighbour(db, root, root)
  {
    assert Follows(db, root, root, 0);
  }

  lemma NodeLoaded(db: Database, root: int, nodes: map<int, Node>, seen: set<int>, queue: seq<int>, id: int, node: Node,
                   seen': set<int>, queue': seq<int>)
    requires Integrity(db)
    requires QueueOK(db, root, nodes, seen, [id] + queue)
    requires NodeOf(db, id) == Ok(node)
    requires seen' == seen + Targets(node.refs)
    requires forall x :: x in queue' <==> x in queue || x in seen' - seen
    ensures QueueOK(db, root, nodes[id := node], seen', queue')
  {
    hide NodeOf, Neighbour, RefersTo;
    assert id in [id] + queue;
    forall x | x in seen' && x !in seen ensures Neighbour(db, root, x) && x in db.documents {
      var k :| 0 <= k < |node.refs| && node.refs[k].id == x;
      assert Names(db, id, x);
      NamesIsRefersTo(db, id, x);
      NeighbourStep(db, root, id, x);
      RefsExist(db, id, k);
    }
    forall x ensures x in seen' <==> x in nodes[id := node] || x in queue' {
      assert x in [id] + queue <==> x == id || x in queue;
    }
  }

  /** A resolved reference names a row. */
  lemma RefsExist(db: Database, id: int, k: nat)
    requires Integrity(db) && NodeOf(db, id).Ok? && k < |NodeOf(db, id).value.refs|
    ensures NodeOf(db, id).value.refs[k].id != 0 ==> NodeOf(db, id).value.refs[k].id in db.documents
  {
  }

  lemma LoadedEverything(db: Database, root: int, nodes: map<int, Node>, seen: set<int>)
    requires Integrity(db) && QueueOK(db, root, nodes, seen, [])
    ensures root in nodes && ClosedIn(nodes, nodes.Keys)
    ensures forall id :: id in nodes <==> Neighbour(db, root, id)
    ensures forall id :: Neighbour(db, root, id) ==> NodeOf(db, id).Ok?
  {
    hide NodeOf, Follows;
    forall id | Neighbour(db, root, id) ensures id in nodes {
      var len: nat :| Follows(db, root, id, len);
      ClosureHolds(db, root, nodes, id, len);
    }
  }

  lemma {:induction false} ClosureHolds(db: Database, root: int, nodes: map<int, Node>, id: int, len: nat)
    requires Integrity(db) && root in nodes && Agrees(db, nodes) && ClosedIn(nodes, nodes.Keys)
    requires Follows(db, root, id, len)
    ensures id in nodes
    decreases len
  {
    hide NodeOf, RefersTo;
    if len > 0 {
      var m :| Follows(db, root, m, len - 1) && RefersTo(db, m, id);
      NamesIsRefersTo(db, m, id);
      ClosureHolds(db, root, nodes, m, len - 1);
    }
  }

  // ---------------------------------------------------------------------
  // Gathering from the loaded graph is gathering from the whole database
  // ---------------------------------------------------------------------

  /** small is a closed part of large, asked the same question. */
  ghost predicate ClosedPart(small: Request, large: Request) {
    && small.grants == large.grants && small.now == large.now
    && ClosedIn(small.nodes, small.nodes.Keys)
    && forall id :: id in small.nodes ==> id in large.nodes && large.nodes[id] == small.nodes[id]
  }

  lemma {:induction false} MeetAllAgrees(small: Request, large: Request, referrer: Node, refs: seq<Ref>, w: Walk)
    requires ClosedPart(small, large)
    requires forall k :: 0 <= k < |refs| && refs[k].id != 0 ==> refs[k].id in small.nodes
    ensures MeetAll(small, referrer, refs, w) == MeetAll(large, referrer, refs, w)
    decreases |refs|
  {
    hide Gate, ClosedIn;
    if refs != [] {
      assert Meet(small, referrer, refs[0], w) == Meet(large, referrer, refs[0], w) by {
        if refs[0].id != 0 { GateAgrees(small, large, small.nodes[refs[0].id]); }
      }
      MeetAllAgrees(small, large, referrer, refs[1..], Meet(small, referrer, refs[0], w));
    }
  }

  lemma GateAgrees(small: Request, large: Request, n: Node)
    requires small.grants == large.grants && small.now == large.now
    ensures Gate(small, n) == Gate(large, n)
  {
    hide Allows;
  }

  lemma {:induction false} RunAgrees(small: Request, large: Request, w: Walk)
    requires ClosedPart(small, large) && Loaded(small, w)
    ensures Loaded(large, w) && Run(small, w) == Run(large, w)
    decreases Remaining(small, w)
  {
    LoadedInBoth(small, large, w);
    if w.queue != [] {
      hide Remaining, MeetAll;
      var node := small.nodes[w.queue[0]];
      RefsInside(small, w.queue[0]);
      PopBounded(small, w);
      MeetAllBounded(small, node, node.refs, Pop(w));
      MeetAllAgrees(small, large, node, node.refs, Pop(w));
      RunAgrees(small, large, MeetAll(small, node, node.refs, Pop(w)));
    }
  }

  lemma LoadedInBoth(small: Request, large: Request, w: Walk)
    requires ClosedPart(small, large) && Loaded(small, w)
    ensures Loaded(large, w)
  {
    forall k | 0 <= k < |w.queue| ensures w.queue[k] in large.nodes {
      var id := w.queue[k];
      assert id in small.nodes;
    }
  }

  lemma RefsInside(q: Request, id: int)
    requires ClosedIn(q.nodes, q.nodes.Keys) && id in q.nodes
    ensures forall k :: 0 <= k < |q.nodes[id].refs| && q.nodes[id].refs[k].id != 0 ==> q.nodes[id].refs[k].id in q.nodes
  {
  }

  /** What LoadGraph loads gathers exactly as the whole database would: the same
      documents in the same order, and the same refusals. */
  lemma LoadedGathersAsWhole(db: Database, root: int, nodes: map<int, Node>, grants: seq<Grant>, now: int)
    requires root in nodes && Agrees(db, nodes) && ClosedIn(nodes, nodes.Keys)
    ensures Gathered(Request(nodes, grants, now), root) == Gathered(Request(Whole(db), grants, now), root)
  {
    var small, large := Request(nodes, grants, now), Request(Whole(db), grants, now);
    PartOfWhole(db, nodes);
    hide Whole;
    RunAgrees(small, large, Start(root));
  }

  lemma PartOfWhole(db: Database, nodes: map<int, Node>)
    requires Agrees(db, nodes)
    ensures forall id :: id in nodes ==> id in Whole(db) && Whole(db)[id] == nodes[id]
  {
    var whole := Whole(db);
    forall id | id in nodes ensures id in whole && whole[id] == nodes[id] {
      WholeHolds(db, id);
    }
  }

  lemma WholeHolds(db: Database, id: int)
    requires NodeOf(db, id).Ok?
    ensures id in Whole(db) && Whole(db)[id] == NodeOf(db, id).value
  {
  }

  /** Over a loaded graph the only references refused as missing are uids that name nothing. */
  lemma LoadedNeverUnloadable(q: Request, root: int, r: Refusal)
    requires root in q.nodes && ClosedIn(q.nodes, q.nodes.Keys)
    requires r in Gathered(q, root).1 && r.reason == Missing
    ensures var s := Gathered(q, root).0;
            exists p: nat, ref: Ref :: p < |s| && ref in RefsOf(q, s[p]) && ref.id == 0
                                       && r.uid == ref.uid && r.referrer == ReferrerUID(q, s, p)
  {
    hide Gathered;
    RefusalsAreOutside(q, root, r);
    var s := Gathered(q, root).0;
    var p: nat, ref: Ref :| p < |s| && RefusedFor(q, s, p, ref, r) && (ref.id == 0 || ref.id !in s);
    var k :| 0 <= k < |RefsOf(q, s[p])| && RefsOf(q, s[p])[k] == ref;
    if ref.id != 0 {
      assert ref.id in q.nodes;
      GateIsNeverMissing(q, q.nodes[ref.id]);
    }
  }

  lemma GateIsNeverMissing(q: Request, n: Node)
    ensures Gate(q, n) != Some(Missing)
  {
  }
}
