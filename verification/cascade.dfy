/** The related-asset cascade: what publishing a document publishes beside it. */
module Cascade {
  import opened Wrappers
  import opened Privileges
  import opened Authz

  /** A reference found in a node's content. An id of zero names no document. */
  datatype Ref = Ref(uid: string, id: int)

  datatype Node = Node(
    uid: string, title: string, subject: Subject,
    lockUser: int, lockExpires: int,
    publishable: bool, versionID: int, refs: seq<Ref>)

  datatype Reason = Missing | Permission | CheckedOut | State | NoVersion

  datatype Refusal = Refusal(uid: string, title: string, referrer: string, reason: Reason)

  /** The loaded graph, and who is asking when. */
  datatype Request = Request(nodes: map<int, Node>, grants: seq<Grant>, now: int)

  predicate LockHeld(n: Node, now: int) {
    n.lockUser != 0 && now < n.lockExpires
  }

  /** Why a related document may not be published, if there is a reason. */
  function Gate(q: Request, rel: Node): Option<Reason> {
    if !Allows(q.grants, rel.subject, Publish) then Some(Permission)
    else if LockHeld(rel, q.now) then Some(CheckedOut)
    else if !rel.publishable then Some(State)
    else if rel.versionID == 0 then Some(NoVersion)
    else None
  }

  /** The asker may publish the document, nobody has it checked out, its workflow calls
      its state publishable, and there is a version to pin. */
  ghost predicate MayGo(q: Request, n: Node) {
    && (exists g :: g in q.grants && Matches(g.scope, n.subject) && g.privilege >= Publish)
    && (forall g :: g in q.grants && Matches(g.scope, n.subject) ==> g.privilege != Deny)
    && (n.lockUser == 0 || q.now >= n.lockExpires)
    && n.publishable
    && n.versionID != 0
  }

  /** A reason is given where it is true and the ones before it are not. */
  ghost predicate Refused(q: Request, n: Node, reason: Reason) {
    var permitted, locked := Allows(q.grants, n.subject, Publish), n.lockUser != 0 && q.now < n.lockExpires;
    match reason
    case Missing => false
    case Permission => !permitted
    case CheckedOut => permitted && locked
    case State => permitted && !locked && !n.publishable
    case NoVersion => permitted && !locked && n.publishable && n.versionID == 0
  }

  /** The gates let through exactly what may go, and name the first that does not. */
  lemma GateExactly(q: Request, n: Node)
    ensures Gate(q, n) == None <==> MayGo(q, n)
    ensures forall reason :: Gate(q, n) == Some(reason) <==> Refused(q, n, reason)
  {
    hide Allows, Matches;
    AllowsMeans(q.grants, n.subject, Publish);
  }

  // ---------------------------------------------------------------------
  // The traversal
  // ---------------------------------------------------------------------

  /** The traversal's variables: ids met, ids waiting, ids gathered, refusals. */
  datatype Walk = Walk(seen: set<int>, queue: seq<int>, done: seq<int>, refusals: seq<Refusal>)

  /** What one reference of a gathered node does. */
  function Meet(q: Request, referrer: Node, ref: Ref, w: Walk): Walk {
    if ref.id == 0 then
      w.(refusals := w.refusals + [Refusal(ref.uid, "", referrer.uid, Missing)])
    else if ref.id in w.seen then w
    else
      var met := w.(seen := w.seen + {ref.id});
      if ref.id !in q.nodes then
        met.(refusals := w.refusals + [Refusal(ref.uid, "", referrer.uid, Missing)])
      else
        var rel := q.nodes[ref.id];
        match Gate(q, rel)
        case Some(reason) => met.(refusals := w.refusals + [Refusal(rel.uid, rel.title, referrer.uid, reason)])
        case None => met.(queue := w.queue + [ref.id])
  }

  function MeetAll(q: Request, referrer: Node, refs: seq<Ref>, w: Walk): Walk
    decreases |refs|
  {
    if refs == [] then w else MeetAll(q, referrer, refs[1..], Meet(q, referrer, refs[0], w))
  }

  /** How many documents could still be visited. */
  ghost function Remaining(q: Request, w: Walk): nat {
    |q.nodes.Keys - w.seen| + |w.queue|
  }

  ghost predicate Loaded(q: Request, w: Walk) {
    forall k :: 0 <= k < |w.queue| ==> w.queue[k] in q.nodes
  }

  lemma MeetBounded(q: Request, referrer: Node, ref: Ref, w: Walk)
    requires Loaded(q, w)
    ensures Loaded(q, Meet(q, referrer, ref, w))
    ensures Remaining(q, Meet(q, referrer, ref, w)) <= Remaining(q, w)
  {
    if ref.id != 0 && ref.id !in w.seen {
      var left := q.nodes.Keys - w.seen;
      assert q.nodes.Keys - (w.seen + {ref.id}) == left - {ref.id};
      if ref.id in q.nodes {
        assert ref.id in left;
        assert |left - {ref.id}| == |left| - 1;
      } else {
        assert left - {ref.id} == left;
      }
    }
  }

  lemma {:induction false} MeetAllBounded(q: Request, referrer: Node, refs: seq<Ref>, w: Walk)
    requires Loaded(q, w)
    ensures Loaded(q, MeetAll(q, referrer, refs, w))
    ensures Remaining(q, MeetAll(q, referrer, refs, w)) <= Remaining(q, w)
    decreases |refs|
  {
    hide Meet, Loaded, Remaining;
    if refs != [] {
      MeetBounded(q, referrer, refs[0], w);
      MeetAllBounded(q, referrer, refs[1..], Meet(q, referrer, refs[0], w));
    }
  }

  /** Taking the next id off the queue. */
  function Pop(w: Walk): Walk
    requires w.queue != []
  {
    w.(queue := w.queue[1..], done := w.done + [w.queue[0]])
  }

  lemma PopBounded(q: Request, w: Walk)
    requires Loaded(q, w) && w.queue != []
    ensures Loaded(q, Pop(w)) && Remaining(q, Pop(w)) < Remaining(q, w)
  {
  }

  /** Visits until the queue is empty. */
  function Run(q: Request, w: Walk): Walk
    requires Loaded(q, w)
    decreases Remaining(q, w)
  {
    if w.queue == [] then w
    else
      PopBounded(q, w);
      var node := q.nodes[w.queue[0]];
      MeetAllBounded(q, node, node.refs, Pop(w));
      Run(q, MeetAll(q, node, node.refs, Pop(w)))
  }

  function Start(root: int): Walk {
    Walk({root}, [root], [], [])
  }

  /** The gathered ids in traversal order, and the refusals in the order met. */
  function Gathered(q: Request, root: int): (seq<int>, seq<Refusal>) {
    if root !in q.nodes then ([], [])
    else
      var w := Run(q, Start(root));
      (w.done, w.refusals)
  }

  /** Walks the graph from root. A gathered node is returned as its key. */
  method Gather(q: Request, root: int) returns (gathered: seq<int>, refusals: seq<Refusal>)
    ensures (gathered, refusals) == Gathered(q, root)
  {
    hide MeetAll, Gate, Allows;
    if root !in q.nodes {
      return [], [];
    }
    gathered, refusals := [], [];
    var seen, queue := {root}, [root];
    ghost var w := Start(root);
    while queue != []
      invariant w == Walk(seen, queue, gathered, refusals)
      invariant Loaded(q, w) && Run(q, w) == Run(q, Start(root))
      decreases Remaining(q, w)
    {
      PopBounded(q, w);
      ghost var before := Pop(w);
      var node := q.nodes[queue[0]];
      gathered := gathered + [queue[0]];
      queue := queue[1..];
      MeetAllBounded(q, node, node.refs, before);
      ghost var after := MeetAll(q, node, node.refs, before);
      for k := 0 to |node.refs|
        invariant MeetAll(q, node, node.refs[k..], Walk(seen, queue, gathered, refusals)) == after
      {
        var ref := node.refs[k];
        MeetNext(q, node, node.refs, k, Walk(seen, queue, gathered, refusals));
        if ref.id == 0 {
          refusals := refusals + [Refusal(ref.uid, "", node.uid, Missing)];
          continue;
        }
        if ref.id in seen {
          continue;
        }
        seen := seen + {ref.id};
        if ref.id !in q.nodes {
          refusals := refusals + [Refusal(ref.uid, "", node.uid, Missing)];
          continue;
        }
        var rel := q.nodes[ref.id];
        match Gate(q, rel)
        case Some(reason) =>
          refusals := refusals + [Refusal(rel.uid, rel.title, node.uid, reason)];
          continue;
        case None =>
        queue := queue + [ref.id];
      }
      MeetNone(q, node, node.refs, Walk(seen, queue, gathered, refusals));
      w := after;
    }
  }

  lemma MeetNext(q: Request, referrer: Node, refs: seq<Ref>, k: nat, w: Walk)
    requires k < |refs|
    ensures MeetAll(q, referrer, refs[k..], w) == MeetAll(q, referrer, refs[k + 1..], Meet(q, referrer, refs[k], w))
  {
    hide Meet;
    assert refs[k..][1..] == refs[k + 1..];
  }

  lemma MeetNone(q: Request, referrer: Node, refs: seq<Ref>, w: Walk)
    ensures MeetAll(q, referrer, refs[|refs|..], w) == w
  {
  }

  // ---------------------------------------------------------------------
  // What the answer satisfies
  // ---------------------------------------------------------------------

  /** The traversal meeting a reference: which gathered position it stands in, and what it names. */
  datatype Meeting = Meeting(pos: nat, ref: Ref)

  function Tag(pos: nat, refs: seq<Ref>): (ms: seq<Meeting>)
    ensures |ms| == |refs| && forall k :: 0 <= k < |ms| ==> ms[k] == Meeting(pos, refs[k])
  {
    seq(|refs|, k requires 0 <= k < |refs| => Meeting(pos, refs[k]))
  }

  function RefsOf(q: Request, id: int): seq<Ref> {
    if id in q.nodes then q.nodes[id].refs else []
  }

  /** Every reference out of the gathered documents, in order. */
  function Meetings(q: Request, s: seq<int>): seq<Meeting> {
    if s == [] then [] else Meetings(q, s[..|s| - 1]) + Tag(|s| - 1, RefsOf(q, s[|s| - 1]))
  }

  /** An id met for the first time after ms. */
  ghost predicate FirstMet(root: int, ms: seq<Meeting>, id: int) {
    id != 0 && id != root && forall m :: m in ms ==> m.ref.id != id
  }

  ghost predicate Passes(q: Request, id: int) {
    id in q.nodes && Gate(q, q.nodes[id]) == None
  }

  /** The ids gathered because of the meetings ms: each passing id once, where it was first met. */
  ghost function Accepted(q: Request, root: int, ms: seq<Meeting>): seq<int> {
    if ms == [] then []
    else
      var init, id := ms[..|ms| - 1], ms[|ms| - 1].ref.id;
      Accepted(q, root, init) + (if FirstMet(root, init, id) && Passes(q, id) then [id] else [])
  }

  /** The refusals the meetings ms call for: every reference to nothing, and each
      refused or unloadable id once, where it was first met. */
  ghost function Report(q: Request, root: int, s: seq<int>, ms: seq<Meeting>): seq<Refusal> {
    if ms == [] then []
    else
      var init, m := ms[..|ms| - 1], ms[|ms| - 1];
      Report(q, root, s, init) + Verdict(q, root, ReferrerUID(q, s, m.pos), init, m.ref)
  }

  function ReferrerUID(q: Request, s: seq<int>, pos: nat): string {
    if pos < |s| && s[pos] in q.nodes then q.nodes[s[pos]].uid else ""
  }

  ghost function Verdict(q: Request, root: int, referrer: string, earlier: seq<Meeting>, ref: Ref): seq<Refusal> {
    if ref.id == 0 then [Refusal(ref.uid, "", referrer, Missing)]
    else if !FirstMet(root, earlier, ref.id) then []
    else if ref.id !in q.nodes then [Refusal(ref.uid, "", referrer, Missing)]
    else
      var rel := q.nodes[ref.id];
      match Gate(q, rel)
      case Some(reason) => [Refusal(rel.uid, rel.title, referrer, reason)]
      case None => []
  }

  /** No id is gathered on the word of a document gathered after it. */
  ghost predicate Justified(q: Request, root: int, ms: seq<Meeting>) {
    && (forall k :: 0 <= k < |ms| ==> ms[k].pos <= |Accepted(q, root, ms[..k])|)
    && (forall k, l :: 0 <= k <= l < |ms| ==> ms[k].pos <= ms[l].pos)
  }

  /** What Gather answers, as equations between the set, the references out of it and the refusals. */
  ghost predicate Solves(q: Request, root: int, s: seq<int>, refusals: seq<Refusal>) {
    var ms := Meetings(q, s);
    && s == [root] + Accepted(q, root, ms)
    && refusals == Report(q, root, s, ms)
    && Justified(q, root, ms)
  }

  /** The equations part way: ms met so far, with the queue still to visit. */
  ghost predicate Partway(q: Request, root: int, w: Walk, ms: seq<Meeting>) {
    && w.done + w.queue == [root] + Accepted(q, root, ms)
    && (forall id :: id != 0 ==> (id in w.seen <==> !FirstMet(root, ms, id)))
    && w.refusals == Report(q, root, w.done, ms)
    && Justified(q, root, ms)
    && (forall m :: m in ms ==> m.pos < |w.done|)
  }

  lemma JustifiedSnoc(q: Request, root: int, ms: seq<Meeting>, m: Meeting)
    requires Justified(q, root, ms)
    requires m.pos <= |Accepted(q, root, ms)|
    requires forall x :: x in ms ==> x.pos <= m.pos
    ensures Justified(q, root, ms + [m])
  {
    hide Accepted;
    var all := ms + [m];
    forall k | 0 <= k < |all| ensures all[k].pos <= |Accepted(q, root, all[..k])| {
      assert all[..k] == if k < |ms| then ms[..k] else ms;
    }
  }

  lemma FirstMetSnoc(root: int, ms: seq<Meeting>, m: Meeting, id: int)
    ensures FirstMet(root, ms + [m], id) <==> FirstMet(root, ms, id) && m.ref.id != id
  {
    assert forall x :: x in ms + [m] <==> x in ms || x == m;
  }

  lemma AcceptedSnoc(q: Request, root: int, ms: seq<Meeting>, m: Meeting)
    ensures Accepted(q, root, ms + [m]) == Accepted(q, root, ms)
              + (if FirstMet(root, ms, m.ref.id) && Passes(q, m.ref.id) then [m.ref.id] else [])
  {
    assert (ms + [m])[..|ms|] == ms;
  }

  lemma ReportSnoc(q: Request, root: int, s: seq<int>, ms: seq<Meeting>, m: Meeting)
    ensures Report(q, root, s, ms + [m]) == Report(q, root, s, ms)
              + Verdict(q, root, ReferrerUID(q, s, m.pos), ms, m.ref)
  {
    assert (ms + [m])[..|ms|] == ms;
  }

  /** What Meet does, in the words of the equations. */
  lemma MeetEffect(q: Request, root: int, referrer: Node, ref: Ref, w: Walk, ms: seq<Meeting>)
    requires ref.id != 0 ==> (ref.id in w.seen <==> !FirstMet(root, ms, ref.id))
    ensures var w' := Meet(q, referrer, ref, w);
            && w'.done == w.done
            && w'.queue == w.queue + (if FirstMet(root, ms, ref.id) && Passes(q, ref.id) then [ref.id] else [])
            && w'.refusals == w.refusals + Verdict(q, root, referrer.uid, ms, ref)
            && w'.seen == w.seen + (if ref.id == 0 then {} else {ref.id})
  {
    hide Gate;
    assert ref.id in w.seen ==> w.seen + {ref.id} == w.seen;
    assert w.queue + [] == w.queue && w.refusals + [] == w.refusals;
  }

  /** One meeting keeps the equations. */
  lemma MeetKeeps(q: Request, root: int, w: Walk, ms: seq<Meeting>, ref: Ref)
    requires Partway(q, root, w, ms) && w.done != [] && w.done[|w.done| - 1] in q.nodes
    ensures Partway(q, root, Meet(q, q.nodes[w.done[|w.done| - 1]], ref, w), ms + [Meeting(|w.done| - 1, ref)])
  {
    hide Meet, Passes, FirstMet, Verdict, Accepted, Report, Justified;
    var pos, m := |w.done| - 1, Meeting(|w.done| - 1, ref);
    var node := q.nodes[w.done[pos]];
    MeetEffect(q, root, node, ref, w, ms);
    AcceptedSnoc(q, root, ms, m);
    ReportSnoc(q, root, w.done, ms, m);
    assert |w.done| <= |w.done + w.queue|;
    JustifiedSnoc(q, root, ms, m);
    var w' := Meet(q, node, ref, w);
    assert w'.done + w'.queue == [root] + Accepted(q, root, ms + [m]) by {
      var extra := if FirstMet(root, ms, ref.id) && Passes(q, ref.id) then [ref.id] else [];
      assert w'.done + w'.queue == (w.done + w.queue) + extra;
    }
    forall id | id != 0 ensures id in w'.seen <==> !FirstMet(root, ms + [m], id) {
      FirstMetSnoc(root, ms, m, id);
    }
  }

  lemma {:induction false} MeetAllKeeps(q: Request, root: int, w: Walk, ms: seq<Meeting>, refs: seq<Ref>)
    requires Partway(q, root, w, ms) && w.done != [] && w.done[|w.done| - 1] in q.nodes
    ensures var w' := MeetAll(q, q.nodes[w.done[|w.done| - 1]], refs, w);
            w'.done == w.done && Partway(q, root, w', ms + Tag(|w.done| - 1, refs))
    decreases |refs|
  {
    hide Meet, Partway;
    var pos, node := |w.done| - 1, q.nodes[w.done[|w.done| - 1]];
    if refs == [] {
      assert ms + Tag(pos, refs) == ms;
    } else {
      var m := Meeting(pos, refs[0]);
      MeetKeeps(q, root, w, ms, refs[0]);
      MeetSameDone(q, node, refs[0], w);
      MeetAllKeeps(q, root, Meet(q, node, refs[0], w), ms + [m], refs[1..]);
      assert (ms + [m]) + Tag(pos, refs[1..]) == ms + Tag(pos, refs);
    }
  }

  lemma MeetSameDone(q: Request, referrer: Node, ref: Ref, w: Walk)
    ensures Meet(q, referrer, ref, w).done == w.done
  {
  }

  /** Taking the next document keeps the equations. */
  lemma PopKeeps(q: Request, root: int, w: Walk, ms: seq<Meeting>)
    requires Partway(q, root, w, ms) && w.queue != []
    ensures Partway(q, root, Pop(w), ms)
  {
    hide FirstMet, Accepted, Justified;
    assert Pop(w).done + Pop(w).queue == w.done + w.queue;
    ReportExtends(q, root, w.done, w.queue[0], ms);
  }

  lemma {:induction false} ReportExtends(q: Request, root: int, s: seq<int>, id: int, ms: seq<Meeting>)
    requires forall m :: m in ms ==> m.pos < |s|
    ensures Report(q, root, s + [id], ms) == Report(q, root, s, ms)
    decreases |ms|
  {
    hide Verdict;
    if ms != [] {
      assert ms[|ms| - 1] in ms;
      ReportExtends(q, root, s, id, ms[..|ms| - 1]);
    }
  }

  lemma VisitKeeps(q: Request, root: int, w: Walk)
    requires Loaded(q, w) && Partway(q, root, w, Meetings(q, w.done)) && w.queue != []
    ensures var node := q.nodes[w.queue[0]];
            var w' := MeetAll(q, node, node.refs, Pop(w));
            Loaded(q, w') && Remaining(q, w') < Remaining(q, w) && Partway(q, root, w', Meetings(q, w'.done))
  {
    var id, w1 := w.queue[0], Pop(w);
    var node := q.nodes[id];
    PopBounded(q, w);
    hide Partway, MeetAll, Remaining, Loaded;
    PopKeeps(q, root, w, Meetings(q, w.done));
    MeetAllBounded(q, node, node.refs, w1);
    MeetAllKeeps(q, root, w1, Meetings(q, w.done), node.refs);
    assert w1.done[..|w1.done| - 1] == w.done;
  }

  lemma {:induction false} RunKeeps(q: Request, root: int, w: Walk)
    requires Loaded(q, w) && Partway(q, root, w, Meetings(q, w.done))
    ensures Solves(q, root, Run(q, w).done, Run(q, w).refusals)
    decreases Remaining(q, w)
  {
    if w.queue == [] {
      assert w.done + w.queue == w.done;
    } else {
      hide Partway, Solves, MeetAll, Remaining, Meetings;
      VisitKeeps(q, root, w);
      RunKeeps(q, root, MeetAll(q, q.nodes[w.queue[0]], q.nodes[w.queue[0]].refs, Pop(w)));
    }
  }

  /** Gather answers the equations. */
  lemma GatherSolves(q: Request, root: int)
    requires root in q.nodes
    ensures Solves(q, root, Gathered(q, root).0, Gathered(q, root).1)
  {
    assert [] + [root] == [root] + [];
    RunKeeps(q, root, Start(root));
  }

  // ---------------------------------------------------------------------
  // The answer is the least fixed point, nearest first
  // ---------------------------------------------------------------------

  /** Publishing a would take b with it. */
  ghost predicate Edge(q: Request, a: int, b: int) {
    && b != 0 && Passes(q, b)
    && exists k :: 0 <= k < |RefsOf(q, a)| && RefsOf(q, a)[k].id == b
  }

  /** id is len references from root, through documents that all pass. */
  ghost predicate Reaches(q: Request, root: int, id: int, len: nat)
    decreases len
  {
    if len == 0 then id == root
    else exists m :: Reaches(q, root, m, len - 1) && Edge(q, m, id)
  }

  /** Which meeting gathered the i-th accepted id. */
  ghost function AcceptedBy(q: Request, root: int, ms: seq<Meeting>, i: nat): (k: nat)
    requires i < |Accepted(q, root, ms)|
    ensures k < |ms|
    decreases |ms|
  {
    var init := ms[..|ms| - 1];
    if i < |Accepted(q, root, init)| then AcceptedBy(q, root, init, i) else |ms| - 1
  }

  lemma {:induction false} AcceptedByMeans(q: Request, root: int, ms: seq<Meeting>, i: nat)
    requires i < |Accepted(q, root, ms)|
    ensures var k := AcceptedBy(q, root, ms, i);
            && |Accepted(q, root, ms[..k])| == i
            && ms[k].ref.id == Accepted(q, root, ms)[i]
            && FirstMet(root, ms[..k], ms[k].ref.id) && Passes(q, ms[k].ref.id)
    decreases |ms|
  {
    hide FirstMet, Passes;
    var init := ms[..|ms| - 1];
    if i < |Accepted(q, root, init)| {
      AcceptedByMeans(q, root, init, i);
      var k := AcceptedBy(q, root, init, i);
      assert init[..k] == ms[..k];
    }
  }

  lemma {:induction false} AcceptedByMonotone(q: Request, root: int, ms: seq<Meeting>, i: nat, j: nat)
    requires i <= j < |Accepted(q, root, ms)|
    ensures AcceptedBy(q, root, ms, i) <= AcceptedBy(q, root, ms, j)
    decreases |ms|
  {
    hide FirstMet, Passes;
    if j < |Accepted(q, root, ms[..|ms| - 1])| { AcceptedByMonotone(q, root, ms[..|ms| - 1], i, j); }
  }

  /** Every first meeting of a passing id gathers it. */
  lemma {:induction false} FirstMeetingAccepts(q: Request, root: int, ms: seq<Meeting>, k: nat)
    requires k < |ms| && Passes(q, ms[k].ref.id) && ms[k].ref.id != 0 && ms[k].ref.id != root
    ensures ms[k].ref.id in Accepted(q, root, ms)
    decreases |ms|
  {
    var id, init := ms[k].ref.id, ms[..|ms| - 1];
    if j :| 0 <= j < |init| && init[j].ref.id == id {
      FirstMeetingAccepts(q, root, init, j);
    } else {
      hide Passes;
      assert k == |init|;
      assert forall m :: m in init ==> m.ref.id != id;
    }
  }

  lemma {:induction false} AcceptedWereMet(q: Request, root: int, ms: seq<Meeting>, id: int)
    requires id in Accepted(q, root, ms)
    ensures exists m :: m in ms && m.ref.id == id
    ensures id != root && Passes(q, id)
    decreases |ms|
  {
    hide Passes;
    var init, m := ms[..|ms| - 1], ms[|ms| - 1];
    assert ms == init + [m];
    if id in Accepted(q, root, init) {
      AcceptedWereMet(q, root, init, id);
      var x :| x in init && x.ref.id == id;
      assert x in ms;
    } else {
      assert m in ms;
    }
  }

  /** Each id is accepted once. */
  lemma {:induction false} AcceptedDistinct(q: Request, root: int, ms: seq<Meeting>)
    ensures forall i, j :: 0 <= i < j < |Accepted(q, root, ms)| ==> Accepted(q, root, ms)[i] != Accepted(q, root, ms)[j]
    decreases |ms|
  {
    hide Passes;
    if ms != [] {
      var init, id := ms[..|ms| - 1], ms[|ms| - 1].ref.id;
      AcceptedDistinct(q, root, init);
      if FirstMet(root, init, id) {
        if id in Accepted(q, root, init) { AcceptedWereMet(q, root, init, id); }
      }
    }
  }

  /** A meeting at position p is a reference of the document gathered there, and conversely. */
  lemma {:induction false} MeetingsAre(q: Request, s: seq<int>, p: nat, k: nat) returns (at: nat)
    requires p < |s| && k < |RefsOf(q, s[p])|
    ensures at < |Meetings(q, s)| && Meetings(q, s)[at] == Meeting(p, RefsOf(q, s[p])[k])
    decreases |s|
  {
    var n := |s| - 1;
    if p == n {
      at := |Meetings(q, s[..n])| + k;
    } else {
      at := MeetingsAre(q, s[..n], p, k);
    }
  }

  lemma {:induction false} MeetingsFrom(q: Request, s: seq<int>, at: nat)
    requires at < |Meetings(q, s)|
    ensures Meetings(q, s)[at].pos < |s|
    ensures exists k :: 0 <= k < |RefsOf(q, s[Meetings(q, s)[at].pos])|
                        && RefsOf(q, s[Meetings(q, s)[at].pos])[k] == Meetings(q, s)[at].ref
    decreases |s|
  {
    var n := |s| - 1;
    var init := Meetings(q, s[..n]);
    if at < |init| {
      MeetingsFrom(q, s[..n], at);
    } else {
      assert RefsOf(q, s[n])[at - |init|] == Meetings(q, s)[at].ref;
    }
  }

  // ---------------------------------------------------------------------
  // Depth
  // ---------------------------------------------------------------------

  /** The position of the document on whose word s[i] was gathered. */
  ghost function Parent(q: Request, root: int, s: seq<int>, refusals: seq<Refusal>, i: nat): (p: nat)
    requires Solves(q, root, s, refusals) && 0 < i < |s|
    ensures p < i
  {
    hide FirstMet, Passes, Report, Meetings;
    var ms := Meetings(q, s);
    AcceptedByMeans(q, root, ms, i - 1);
    ms[AcceptedBy(q, root, ms, i - 1)].pos
  }

  ghost function Depth(q: Request, root: int, s: seq<int>, refusals: seq<Refusal>, i: nat): nat
    requires Solves(q, root, s, refusals) && i < |s|
    decreases i
  {
    if i == 0 then 0 else 1 + Depth(q, root, s, refusals, Parent(q, root, s, refusals, i))
  }

  lemma ParentMonotone(q: Request, root: int, s: seq<int>, refusals: seq<Refusal>, i: nat, j: nat)
    requires Solves(q, root, s, refusals) && 0 < i <= j < |s|
    ensures Parent(q, root, s, refusals, i) <= Parent(q, root, s, refusals, j)
  {
    hide FirstMet, Passes, Report, Meetings;
    AcceptedByMonotone(q, root, Meetings(q, s), i - 1, j - 1);
  }

  lemma {:induction false} DepthMonotone(q: Request, root: int, s: seq<int>, refusals: seq<Refusal>, i: nat, j: nat)
    requires Solves(q, root, s, refusals) && i <= j < |s|
    ensures Depth(q, root, s, refusals, i) <= Depth(q, root, s, refusals, j)
    decreases j
  {
    hide Parent, Solves;
    if i > 0 {
      ParentMonotone(q, root, s, refusals, i, j);
      DepthMonotone(q, root, s, refusals, Parent(q, root, s, refusals, i), Parent(q, root, s, refusals, j));
    }
  }

  lemma ParentEdge(q: Request, root: int, s: seq<int>, refusals: seq<Refusal>, i: nat)
    requires Solves(q, root, s, refusals) && 0 < i < |s|
    ensures Edge(q, s[Parent(q, root, s, refusals, i)], s[i])
  {
    hide Passes, Report, Meetings;
    var ms := Meetings(q, s);
    AcceptedByMeans(q, root, ms, i - 1);
    MeetingsFrom(q, s, AcceptedBy(q, root, ms, i - 1));
  }

  /** Everything gathered is reached, along as many references as its depth. */
  lemma {:induction false} GatheredIsReached(q: Request, root: int, s: seq<int>, refusals: seq<Refusal>, i: nat)
    requires Solves(q, root, s, refusals) && i < |s|
    ensures Reaches(q, root, s[i], Depth(q, root, s, refusals, i))
    decreases i
  {
    hide Edge, Accepted, Report, Justified, Parent;
    if i > 0 {
      var p := Parent(q, root, s, refusals, i);
      GatheredIsReached(q, root, s, refusals, p);
      ParentEdge(q, root, s, refusals, i);
    }
  }

  /** A document a gathered one leads to is gathered, on the word of nothing later than it. */
  lemma EdgeIsFollowed(q: Request, root: int, s: seq<int>, refusals: seq<Refusal>, i: nat, b: int) returns (j: nat)
    requires Solves(q, root, s, refusals) && i < |s| && Edge(q, s[i], b)
    ensures j < |s| && s[j] == b
    ensures j > 0 ==> Parent(q, root, s, refusals, j) <= i
  {
    hide Passes, Report, Accepted, Meetings;
    if b == root { return 0; }
    var ms := Meetings(q, s);
    var k :| 0 <= k < |RefsOf(q, s[i])| && RefsOf(q, s[i])[k].id == b;
    var at := MeetingsAre(q, s, i, k);
    FirstMeetingAccepts(q, root, ms, at);
    var a :| 0 <= a < |Accepted(q, root, ms)| && Accepted(q, root, ms)[a] == b;
    j := a + 1;
    AcceptedByMeans(q, root, ms, a);
    var first := AcceptedBy(q, root, ms, a);
    if at < first { assert ms[at] in ms[..first]; }
  }

  /** Everything reached is gathered, no deeper than the path that reached it. */
  lemma {:induction false} ReachedIsGathered(q: Request, root: int, s: seq<int>, refusals: seq<Refusal>, id: int, len: nat)
    returns (j: nat)
    requires Solves(q, root, s, refusals) && Reaches(q, root, id, len)
    ensures j < |s| && s[j] == id && Depth(q, root, s, refusals, j) <= len
    decreases len
  {
    hide Edge, Solves, Parent, Depth, Reaches;
    SolvesStarts(q, root, s, refusals);
    if len == 0 {
      AtTheRoot(q, root, id);
      DepthStep(q, root, s, refusals, 0);
      return 0;
    }
    var m := LastHop(q, root, id, len);
    var i := ReachedIsGathered(q, root, s, refusals, m, len - 1);
    j := EdgeIsFollowed(q, root, s, refusals, i, id);
    DepthStep(q, root, s, refusals, j);
    if j > 0 { DepthMonotone(q, root, s, refusals, Parent(q, root, s, refusals, j), i); }
  }

  lemma AtTheRoot(q: Request, root: int, id: int)
    requires Reaches(q, root, id, 0)
    ensures id == root
  {
  }

  lemma LastHop(q: Request, root: int, id: int, len: nat) returns (m: int)
    requires len > 0 && Reaches(q, root, id, len)
    ensures Reaches(q, root, m, len - 1) && Edge(q, m, id)
  {
    hide Edge;
    m :| Reaches(q, root, m, len - 1) && Edge(q, m, id);
  }

  lemma SolvesStarts(q: Request, root: int, s: seq<int>, refusals: seq<Refusal>)
    requires Solves(q, root, s, refusals)
    ensures s != [] && s[0] == root
  {
  }

  lemma DepthStep(q: Request, root: int, s: seq<int>, refusals: seq<Refusal>, i: nat)
    requires Solves(q, root, s, refusals) && i < |s|
    ensures Depth(q, root, s, refusals, i) ==
            if i == 0 then 0 else 1 + Depth(q, root, s, refusals, Parent(q, root, s, refusals, i))
  {
  }

  lemma GatheredOnce(q: Request, root: int, s: seq<int>, refusals: seq<Refusal>)
    requires Solves(q, root, s, refusals)
    ensures s != [] && s[0] == root && forall i, j :: 0 <= i < j < |s| ==> s[i] != s[j]
  {
    hide Accepted, Report, Justified, Meetings;
    var ms := Meetings(q, s);
    AcceptedDistinct(q, root, ms);
    if root in Accepted(q, root, ms) { AcceptedWereMet(q, root, ms, root); }
  }

  ghost predicate Reachable(q: Request, root: int, id: int) {
    exists len: nat :: Reaches(q, root, id, len)
  }

  /** a is at most as far from the root as b. */
  ghost predicate NoFarther(q: Request, root: int, a: int, b: int) {
    forall len: nat :: Reaches(q, root, b, len) ==>
      exists shorter: nat :: shorter <= len && Reaches(q, root, a, shorter)
  }

  lemma ExactlyReached(q: Request, root: int, s: seq<int>, refusals: seq<Refusal>, id: int)
    requires Solves(q, root, s, refusals)
    ensures id in s <==> Reachable(q, root, id)
  {
    hide Solves, Reaches, Depth;
    if id in s {
      var i :| 0 <= i < |s| && s[i] == id;
      GatheredIsReached(q, root, s, refusals, i);
    }
    if len: nat :| Reaches(q, root, id, len) {
      var j := ReachedIsGathered(q, root, s, refusals, id, len);
    }
  }

  lemma NearestFirst(q: Request, root: int, s: seq<int>, refusals: seq<Refusal>, i: nat, j: nat)
    requires Solves(q, root, s, refusals) && i <= j < |s|
    ensures NoFarther(q, root, s[i], s[j])
  {
    hide Solves, Reaches, Depth, Parent;
    GatheredOnce(q, root, s, refusals);
    forall len: nat | Reaches(q, root, s[j], len)
      ensures exists shorter: nat :: shorter <= len && Reaches(q, root, s[i], shorter)
    {
      var j' := ReachedIsGathered(q, root, s, refusals, s[j], len);
      assert j' == j;
      DepthMonotone(q, root, s, refusals, i, j);
      GatheredIsReached(q, root, s, refusals, i);
    }
  }

  lemma ReachedMayGo(q: Request, root: int, id: int)
    requires Reachable(q, root, id) && id != root
    ensures id in q.nodes && MayGo(q, q.nodes[id])
  {
    hide Gate, MayGo;
    var len: nat :| Reaches(q, root, id, len);
    if id in q.nodes { GateExactly(q, q.nodes[id]); }
  }

  /** The cascade on any graph, cycles included: the root first, then exactly what is
      reached through passing documents, each once, nearest first. */
  lemma CascadeIsLeastFixedPoint(q: Request, root: int)
    requires root in q.nodes
    ensures var s := Gathered(q, root).0;
            && s != [] && s[0] == root
            && (forall i, j :: 0 <= i < j < |s| ==> s[i] != s[j])
            && (forall id :: id in s <==> Reachable(q, root, id))
            && (forall i, j :: 0 <= i <= j < |s| ==> NoFarther(q, root, s[i], s[j]))
            && (forall id :: id in s && id != root ==> id in q.nodes && MayGo(q, q.nodes[id]))
  {
    hide Solves, Reachable, NoFarther, Gathered, MayGo;
    var (s, refusals) := Gathered(q, root);
    GatherSolves(q, root);
    GatheredOnce(q, root, s, refusals);
    forall id ensures id in s <==> Reachable(q, root, id) {
      ExactlyReached(q, root, s, refusals, id);
    }
    forall id | id in s && id != root ensures id in q.nodes && MayGo(q, q.nodes[id]) {
      ReachedMayGo(q, root, id);
    }
    forall i, j | 0 <= i <= j < |s| ensures NoFarther(q, root, s[i], s[j]) {
      NearestFirst(q, root, s, refusals, i, j);
    }
  }

  // ---------------------------------------------------------------------
  // Every reference out of the set is accounted for
  // ---------------------------------------------------------------------

  /** Report holds a refusal for every meeting that was the first of a refused or missing id. */
  lemma {:induction false} ReportHolds(q: Request, root: int, s: seq<int>, ms: seq<Meeting>, k: nat)
    requires k < |ms|
    ensures forall r :: r in Verdict(q, root, ReferrerUID(q, s, ms[k].pos), ms[..k], ms[k].ref) ==>
              r in Report(q, root, s, ms)
    decreases |ms|
  {
    hide Verdict;
    if k < |ms| - 1 {
      ReportHolds(q, root, s, ms[..|ms| - 1], k);
      assert ms[..|ms| - 1][..k] == ms[..k];
    }
  }

  /** Report holds nothing else. */
  lemma {:induction false} ReportOnly(q: Request, root: int, s: seq<int>, ms: seq<Meeting>, r: Refusal) returns (k: nat)
    requires r in Report(q, root, s, ms)
    ensures k < |ms| && r in Verdict(q, root, ReferrerUID(q, s, ms[k].pos), ms[..k], ms[k].ref)
    decreases |ms|
  {
    hide Verdict;
    var init := ms[..|ms| - 1];
    if r in Report(q, root, s, init) {
      k := ReportOnly(q, root, s, init, r);
      assert init[..k] == ms[..k];
    } else {
      k := |ms| - 1;
    }
  }

  /** The first meeting of an id. */
  lemma {:induction false} FirstMeetingOf(ms: seq<Meeting>, k: nat) returns (first: nat)
    requires k < |ms|
    ensures first <= k && ms[first].ref.id == ms[k].ref.id
    ensures forall m :: m in ms[..first] ==> m.ref.id != ms[k].ref.id
    decreases k
  {
    if j :| 0 <= j < k && ms[j].ref.id == ms[k].ref.id {
      first := FirstMeetingOf(ms, j);
    } else {
      first := k;
    }
  }

  /** The refusal a reference from the gathered document at position p would earn. */
  ghost predicate RefusedFor(q: Request, s: seq<int>, p: nat, ref: Ref, r: Refusal)
    requires p < |s|
  {
    && ref in RefsOf(q, s[p])
    && r.referrer == ReferrerUID(q, s, p)
    && if ref.id == 0 || ref.id !in q.nodes then r.reason == Missing && r.uid == ref.uid
       else
         && Refused(q, q.nodes[ref.id], r.reason)
         && r.uid == q.nodes[ref.id].uid && r.title == q.nodes[ref.id].title
  }

  /** Every reference out of the set names a gathered document, or is refused by name:
      missing, or the first gate its document fails. */
  lemma ReferencesAccounted(q: Request, root: int, p: nat, ref: Ref)
    requires root in q.nodes && p < |Gathered(q, root).0|
    requires ref in RefsOf(q, Gathered(q, root).0[p])
    ensures var (s, refusals) := Gathered(q, root);
            || (ref.id != 0 && ref.id in s)
            || exists p': nat, ref': Ref, r ::
                 && p' < |s| && ref'.id == ref.id && r in refusals && RefusedFor(q, s, p', ref', r)
                 && (ref.id == 0 ==> p' == p && ref' == ref)
  {
    var (s, refusals) := Gathered(q, root);
    GatherSolves(q, root);
    var ms := Meetings(q, s);
    var k :| 0 <= k < |RefsOf(q, s[p])| && RefsOf(q, s[p])[k] == ref;
    var at := MeetingsAre(q, s, p, k);
    hide Report, Accepted, Justified, Meetings, Gathered, Gate;
    if ref.id == root && root != 0 {
      assert s[0] == root;
    } else if ref.id != 0 && Passes(q, ref.id) {
      var j := EdgeIsFollowed(q, root, s, refusals, p, ref.id);
    } else {
      var first := at;
      if ref.id != 0 { first := FirstMeetingOf(ms, at); }
      RefusalAt(q, root, s, refusals, ms, first);
    }
  }

  lemma RefusalAt(q: Request, root: int, s: seq<int>, refusals: seq<Refusal>, ms: seq<Meeting>, k: nat)
    requires Solves(q, root, s, refusals) && ms == Meetings(q, s) && k < |ms|
    requires ms[k].ref.id == 0 || (FirstMet(root, ms[..k], ms[k].ref.id) && !Passes(q, ms[k].ref.id))
    ensures ms[k].pos < |s|
    ensures exists r :: r in refusals && RefusedFor(q, s, ms[k].pos, ms[k].ref, r)
  {
    hide Report, Accepted, Justified, Meetings, Gate;
    MeetingsFrom(q, s, k);
    ReportHolds(q, root, s, ms, k);
    var found := Verdict(q, root, ReferrerUID(q, s, ms[k].pos), ms[..k], ms[k].ref);
    assert |found| == 1;
    assert found[0] in found;
    VerdictIsRefusal(q, root, s, ms[k].pos, ms[..k], ms[k].ref, found[0]);
    assert RefusedFor(q, s, ms[k].pos, ms[k].ref, found[0]);
  }

  /** No refusal is about a gathered document, and every refusal comes from a gathered
      one: refused documents are not traversed. */
  lemma RefusalsAreOutside(q: Request, root: int, r: Refusal)
    requires root in q.nodes && r in Gathered(q, root).1
    ensures var s := Gathered(q, root).0;
            exists p: nat, ref: Ref :: p < |s| && RefusedFor(q, s, p, ref, r) && (ref.id == 0 || ref.id !in s)
  {
    hide Solves, Meetings, Verdict, RefusedFor, Gathered, RefsOf;
    var (s, refusals) := Gathered(q, root);
    GatherSolves(q, root);
    SolvesReports(q, root, s, refusals);
    var ms := Meetings(q, s);
    var k := ReportOnly(q, root, s, ms, r);
    MeetingsFrom(q, s, k);
    VerdictIsRefusal(q, root, s, ms[k].pos, ms[..k], ms[k].ref, r);
    if ms[k].ref.id != 0 && ms[k].ref.id in s { GatheredHasNoVerdict(q, root, s, refusals, k); }
  }

  lemma SolvesReports(q: Request, root: int, s: seq<int>, refusals: seq<Refusal>)
    requires Solves(q, root, s, refusals)
    ensures refusals == Report(q, root, s, Meetings(q, s))
  {
  }

  lemma VerdictIsRefusal(q: Request, root: int, s: seq<int>, p: nat, earlier: seq<Meeting>, ref: Ref, r: Refusal)
    requires p < |s| && ref in RefsOf(q, s[p])
    requires r in Verdict(q, root, ReferrerUID(q, s, p), earlier, ref)
    ensures RefusedFor(q, s, p, ref, r)
  {
    hide Gate, Refused;
    if ref.id in q.nodes { GateExactly(q, q.nodes[ref.id]); }
  }

  /** A meeting of a gathered document earns no refusal. */
  lemma GatheredHasNoVerdict(q: Request, root: int, s: seq<int>, refusals: seq<Refusal>, k: nat)
    requires Solves(q, root, s, refusals) && k < |Meetings(q, s)|
    requires var id := Meetings(q, s)[k].ref.id; id != 0 && id in s
    ensures Verdict(q, root, ReferrerUID(q, s, Meetings(q, s)[k].pos), Meetings(q, s)[..k], Meetings(q, s)[k].ref) == []
  {
    var ms := Meetings(q, s);
    var id := ms[k].ref.id;
    hide Accepted, Report, Justified, Meetings, Gate;
    if id != root { AcceptedWereMet(q, root, ms, id); }
  }
}
