/** A document's comments, grouped into threads. */
module Comments {

  /** inReplyTo is 0 for the root of a thread; resolvedAt is 0 while it is open. */
  datatype Comment = Comment(id: int, inReplyTo: int, author: int, body: string, resolvedAt: int)

  datatype Thread = Thread(root: Comment, replies: seq<Comment>)

  predicate IsRoot(c: Comment) {
    c.inReplyTo == 0
  }

  predicate HasRoot(comments: seq<Comment>, id: int) {
    exists k :: 0 <= k < |comments| && IsRoot(comments[k]) && comments[k].id == id
  }

  /** A comment that starts a thread: a root, or a reply whose root is not there. */
  predicate IsHead(comments: seq<Comment>, c: Comment) {
    IsRoot(c) || !HasRoot(comments, c.inReplyTo)
  }

  // ---------------------------------------------------------------------
  // Stable sorting by a key
  // ---------------------------------------------------------------------

  function Insert<T>(sorted: seq<T>, x: T, key: T -> int): seq<T> {
    if sorted != [] && key(x) < key(sorted[|sorted| - 1])
    then Insert(sorted[..|sorted| - 1], x, key) + [sorted[|sorted| - 1]]
    else sorted + [x]
  }

  function Sort<T>(s: seq<T>, key: T -> int): seq<T> {
    if s == [] then [] else Insert(Sort(s[..|s| - 1], key), s[|s| - 1], key)
  }

  ghost predicate Ascending<T>(s: seq<T>, key: T -> int) {
    forall i, j :: 0 <= i < j < |s| ==> key(s[i]) <= key(s[j])
  }

  lemma {:induction false} InsertAdds<T>(sorted: seq<T>, x: T, key: T -> int)
    ensures multiset(Insert(sorted, x, key)) == multiset(sorted) + multiset{x}
    decreases |sorted|
  {
    if sorted != [] && key(x) < key(sorted[|sorted| - 1]) {
      var before, last := sorted[..|sorted| - 1], sorted[|sorted| - 1];
      InsertAdds(before, x, key);
      assert sorted == before + [last];
    }
  }

  lemma AscendingSnoc<T>(s: seq<T>, x: T, key: T -> int)
    requires Ascending(s, key) && forall k :: 0 <= k < |s| ==> key(s[k]) <= key(x)
    ensures Ascending(s + [x], key)
  {
  }

  lemma {:induction false} InsertSorts<T>(sorted: seq<T>, x: T, key: T -> int)
    requires Ascending(sorted, key)
    ensures Ascending(Insert(sorted, x, key), key)
    ensures forall k :: 0 <= k < |Insert(sorted, x, key)| ==>
              Insert(sorted, x, key)[k] == x || Insert(sorted, x, key)[k] in sorted
    decreases |sorted|
  {
    if sorted != [] && key(x) < key(sorted[|sorted| - 1]) {
      var before, last := sorted[..|sorted| - 1], sorted[|sorted| - 1];
      InsertSorts(before, x, key);
      assert forall y :: y in before ==> y in sorted && key(y) <= key(last);
      AscendingSnoc(Insert(before, x, key), last, key);
    } else {
      AscendingSnoc(sorted, x, key);
    }
  }

  lemma {:induction false} SortSorts<T>(s: seq<T>, key: T -> int)
    ensures Ascending(Sort(s, key), key) && multiset(Sort(s, key)) == multiset(s)
    decreases |s|
  {
    if s != [] {
      var before, last := s[..|s| - 1], s[|s| - 1];
      SortSorts(before, key);
      InsertSorts(Sort(before, key), last, key);
      InsertAdds(Sort(before, key), last, key);
      assert s == before + [last];
    }
  }

  /** The elements with one key, in order. */
  function WithKey<T>(s: seq<T>, key: T -> int, k: int): seq<T> {
    if s == [] then []
    else
      var last := s[|s| - 1];
      WithKey(s[..|s| - 1], key, k) + if key(last) == k then [last] else []
  }

  lemma WithKeySnoc<T>(s: seq<T>, x: T, key: T -> int, k: int)
    ensures WithKey(s + [x], key, k) == WithKey(s, key, k) + if key(x) == k then [x] else []
  {
    assert (s + [x])[..|s|] == s;
  }

  lemma {:induction false} InsertIsStable<T>(sorted: seq<T>, x: T, key: T -> int, k: int)
    ensures WithKey(Insert(sorted, x, key), key, k) == WithKey(sorted, key, k) + if key(x) == k then [x] else []
    decreases |sorted|
  {
    if sorted != [] && key(x) < key(sorted[|sorted| - 1]) {
      var before, last := sorted[..|sorted| - 1], sorted[|sorted| - 1];
      InsertIsStable(before, x, key, k);
      WithKeySnoc(Insert(before, x, key), last, key, k);
    } else {
      WithKeySnoc(sorted, x, key, k);
    }
  }

  /** Elements with equal keys stay in the order they came in. */
  lemma {:induction false} SortIsStable<T>(s: seq<T>, key: T -> int, k: int)
    ensures WithKey(Sort(s, key), key, k) == WithKey(s, key, k)
    decreases |s|
  {
    if s != [] {
      SortIsStable(s[..|s| - 1], key, k);
      InsertIsStable(Sort(s[..|s| - 1], key), s[|s| - 1], key, k);
    }
  }

  function ThreadKey(t: Thread): int {
    t.root.id
  }

  function CommentKey(c: Comment): int {
    c.id
  }

  // ---------------------------------------------------------------------
  // Grouping
  // ---------------------------------------------------------------------

  /** Every comment of every thread, thread by thread. */
  function Flatten(threads: seq<Thread>): seq<Comment> {
    if threads == [] then []
    else
      var t := threads[|threads| - 1];
      Flatten(threads[..|threads| - 1]) + [t.root] + t.replies
  }

  lemma FlattenSnoc(threads: seq<Thread>, t: Thread)
    ensures Flatten(threads + [t]) == Flatten(threads) + [t.root] + t.replies
  {
    assert (threads + [t])[..|threads|] == threads;
  }

  /** A head with nothing but replies to it. */
  ghost predicate GoodThread(comments: seq<Comment>, t: Thread) {
    && IsHead(comments, t.root)
    && forall k :: 0 <= k < |t.replies| ==>
         t.replies[k].inReplyTo == t.root.id && !IsHead(comments, t.replies[k])
  }

  ghost predicate GoodThreads(comments: seq<Comment>, threads: seq<Thread>) {
    forall i :: 0 <= i < |threads| ==> GoodThread(comments, threads[i])
  }

  /** Nothing lost, nothing repeated, every reply under its own root, oldest first. */
  ghost predicate Regrouped(comments: seq<Comment>, threads: seq<Thread>) {
    && multiset(Flatten(threads)) == multiset(comments)
    && GoodThreads(comments, threads)
    && Ascending(threads, ThreadKey)
    && forall i :: 0 <= i < |threads| ==> Ascending(threads[i].replies, CommentKey)
  }

  function RootsOf(comments: seq<Comment>): seq<Comment> {
    if comments == [] then []
    else
      var c := comments[|comments| - 1];
      RootsOf(comments[..|comments| - 1]) + if IsRoot(c) then [c] else []
  }

  function RepliesOf(comments: seq<Comment>): seq<Comment> {
    if comments == [] then []
    else
      var c := comments[|comments| - 1];
      RepliesOf(comments[..|comments| - 1]) + if IsRoot(c) then [] else [c]
  }

  lemma {:induction false} RootsAndReplies(comments: seq<Comment>)
    ensures multiset(RootsOf(comments)) + multiset(RepliesOf(comments)) == multiset(comments)
    decreases |comments|
  {
    if comments != [] {
      var before, c := comments[..|comments| - 1], comments[|comments| - 1];
      assert RootsOf(comments) == RootsOf(before) + if IsRoot(c) then [c] else [];
      assert RepliesOf(comments) == RepliesOf(before) + if IsRoot(c) then [] else [c];
      assert comments == before + [c];
      RootsAndReplies(before);
      hide RootsOf, RepliesOf, IsRoot;
      OneMore(RootsOf(before), RepliesOf(before), before, c);
    }
  }

  lemma OneMore(roots: seq<Comment>, replies: seq<Comment>, all: seq<Comment>, c: Comment)
    requires multiset(roots) + multiset(replies) == multiset(all)
    ensures multiset(roots + [c]) + multiset(replies + []) == multiset(all + [c])
    ensures multiset(roots + []) + multiset(replies + [c]) == multiset(all + [c])
  {
    assert roots + [] == roots && replies + [] == replies;
    assert multiset(roots + [c]) == multiset(roots) + multiset{c};
    assert multiset(replies + [c]) == multiset(replies) + multiset{c};
    assert multiset(all + [c]) == multiset(all) + multiset{c};
    Swap(multiset(roots), multiset(replies), multiset{c});
    Swap(multiset(roots), multiset{c}, multiset(replies));
  }

  lemma PrefixSnoc(comments: seq<Comment>, k: nat)
    requires k < |comments|
    ensures var c := comments[k];
            && RootsOf(comments[..k + 1]) == RootsOf(comments[..k]) + (if IsRoot(c) then [c] else [])
            && RepliesOf(comments[..k + 1]) == RepliesOf(comments[..k]) + (if IsRoot(c) then [] else [c])
            && forall id :: HasRoot(comments[..k + 1], id) <==> HasRoot(comments[..k], id) || (IsRoot(c) && c.id == id)
  {
    var before, after := comments[..k], comments[..k + 1];
    assert after[..k] == before;
    forall id ensures HasRoot(after, id) <==> HasRoot(before, id) || (IsRoot(comments[k]) && comments[k].id == id) {
      if HasRoot(before, id) {
        var j :| 0 <= j < k && IsRoot(before[j]) && before[j].id == id;
        assert after[j] == before[j];
      } else if IsRoot(comments[k]) && comments[k].id == id {
        assert after[k] == comments[k];
      }
    }
  }

  /** The place of every root's thread. */
  ghost predicate Indexed(comments: seq<Comment>, threads: seq<Thread>, at: map<int, nat>) {
    forall id :: (id in at <==> HasRoot(comments, id))
                 && (id in at ==> at[id] < |threads| && threads[at[id]].root.id == id)
  }

  /** Of roots with one id, the last one's thread. */
  ghost predicate Latest(threads: seq<Thread>, at: map<int, nat>) {
    forall i :: 0 <= i < |threads| ==> threads[i].root.id in at && i <= at[threads[i].root.id]
  }

  ghost predicate Started(threads: seq<Thread>) {
    forall i :: 0 <= i < |threads| ==> IsRoot(threads[i].root) && threads[i].replies == []
  }

  lemma IndexedSnoc(comments: seq<Comment>, k: nat, threads: seq<Thread>, at: map<int, nat>)
    requires k < |comments| && Indexed(comments[..k], threads, at)
    ensures var c := comments[k];
            if IsRoot(c) then Indexed(comments[..k + 1], threads + [Thread(c, [])], at[c.id := |threads|])
            else Indexed(comments[..k + 1], threads, at)
  {
    PrefixSnoc(comments, k);
    hide HasRoot, RootsOf, RepliesOf;
  }

  lemma IndexBelow(comments: seq<Comment>, threads: seq<Thread>, at: map<int, nat>)
    requires Indexed(comments, threads, at)
    ensures forall id :: id in at ==> at[id] < |threads|
  {
    hide HasRoot;
  }

  lemma LatestSnoc(threads: seq<Thread>, at: map<int, nat>, c: Comment)
    requires Latest(threads, at) && forall id :: id in at ==> at[id] < |threads|
    ensures Latest(threads + [Thread(c, [])], at[c.id := |threads|])
  {
  }

  /** A thread a root and nothing else, and where the last root with each id is. */
  ghost predicate Starting(comments: seq<Comment>, threads: seq<Thread>, at: map<int, nat>) {
    && Flatten(threads) == RootsOf(comments)
    && Started(threads) && Indexed(comments, threads, at) && Latest(threads, at)
  }

  lemma NoneStarted()
    ensures Starting([], [], map[])
  {
  }

  lemma StartingSnoc(comments: seq<Comment>, k: nat, threads: seq<Thread>, at: map<int, nat>)
    requires k < |comments| && Starting(comments[..k], threads, at)
    ensures var c := comments[k];
            if IsRoot(c) then Starting(comments[..k + 1], threads + [Thread(c, [])], at[c.id := |threads|])
            else Starting(comments[..k + 1], threads, at)
  {
    hide Flatten, RootsOf, HasRoot, Indexed, Latest;
    var c := comments[k];
    IndexedSnoc(comments, k, threads, at);
    PrefixSnoc(comments, k);
    FlattenSnoc(threads, Thread(c, []));
    IndexBelow(comments[..k], threads, at);
    LatestSnoc(threads, at, c);
  }

  /** One thread a root, in the order given, and where each root's thread is. */
  method StartThreads(comments: seq<Comment>) returns (threads: seq<Thread>, at: map<int, nat>)
    ensures Starting(comments, threads, at)
  {
    threads, at := [], map[];
    NoneStarted();
    assert comments[..0] == [];
    hide Starting;
    for k := 0 to |comments|
      invariant Starting(comments[..k], threads, at)
    {
      var c := comments[k];
      StartingSnoc(comments, k, threads, at);
      if IsRoot(c) {
        at := at[c.id := |threads|];
        threads := threads + [Thread(c, [])];
      }
    }
    assert comments[..|comments|] == comments;
  }

  ghost function Bag(threads: seq<Thread>): multiset<Comment> {
    multiset(Flatten(threads))
  }

  ghost function BagOf(t: Thread): multiset<Comment> {
    multiset{t.root} + multiset(t.replies)
  }

  lemma BagSnoc(threads: seq<Thread>, t: Thread)
    ensures Bag(threads + [t]) == Bag(threads) + BagOf(t)
  {
    FlattenSnoc(threads, t);
    assert multiset(Flatten(threads) + [t.root] + t.replies) == multiset(Flatten(threads)) + BagOf(t);
  }

  function WithReply(threads: seq<Thread>, i: nat, c: Comment): seq<Thread>
    requires i < |threads|
  {
    threads[i := threads[i].(replies := threads[i].replies + [c])]
  }

  lemma WithReplyLast(before: seq<Thread>, last: Thread, c: Comment)
    ensures WithReply(before + [last], |before|, c) == before + [last.(replies := last.replies + [c])]
  {
  }

  lemma WithReplyBefore(before: seq<Thread>, last: Thread, i: nat, c: Comment)
    requires i < |before|
    ensures WithReply(before + [last], i, c) == WithReply(before, i, c) + [last]
  {
  }

  lemma {:induction false} ReplyAdded(threads: seq<Thread>, i: nat, c: Comment)
    requires i < |threads|
    ensures Bag(WithReply(threads, i, c)) == Bag(threads) + multiset{c}
    decreases |threads|
  {
    hide Bag;
    var n := |threads| - 1;
    var before, last := threads[..n], threads[n];
    assert threads == before + [last];
    if i < n {
      ReplyAdded(before, i, c);
      AddedBefore(before, last, i, c);
    } else {
      AddedLast(before, last, c);
    }
  }

  lemma AddedLast(before: seq<Thread>, last: Thread, c: Comment)
    ensures Bag(WithReply(before + [last], |before|, c)) == Bag(before + [last]) + multiset{c}
  {
    var longer := last.(replies := last.replies + [c]);
    WithReplyLast(before, last, c);
    BagSnoc(before, last);
    BagSnoc(before, longer);
    hide Bag, WithReply;
    assert BagOf(longer) == BagOf(last) + multiset{c};
  }

  lemma AddedBefore(before: seq<Thread>, last: Thread, i: nat, c: Comment)
    requires i < |before|
    requires Bag(WithReply(before, i, c)) == Bag(before) + multiset{c}
    ensures Bag(WithReply(before + [last], i, c)) == Bag(before + [last]) + multiset{c}
  {
    WithReplyBefore(before, last, i, c);
    BagSnoc(before, last);
    BagSnoc(WithReply(before, i, c), last);
    hide *;
    Swap(Bag(before), multiset{c}, BagOf(last));
  }

  lemma Swap<T>(a: multiset<T>, b: multiset<T>, c: multiset<T>)
    ensures (a + b) + c == (a + c) + b == a + (b + c)
  {
  }

  /** The threads have gained exactly the replies that are not orphans. */
  ghost predicate Balanced(threads: seq<Thread>, orphans: seq<Comment>, started: seq<Thread>, replies: seq<Comment>) {
    Bag(threads) + multiset(orphans) == Bag(started) + multiset(replies)
  }

  lemma BothGain<T>(a: multiset<T>, b: multiset<T>, d: multiset<T>, e: multiset<T>, more: multiset<T>)
    requires a + b == d + e
    ensures (a + more) + b == d + (e + more) == a + (b + more)
  {
    assert (a + more) + b == (a + b) + more == a + (b + more);
    assert d + (e + more) == (d + e) + more;
  }

  lemma BalancedReply(threads: seq<Thread>, orphans: seq<Comment>, started: seq<Thread>, replies: seq<Comment>,
                      i: nat, c: Comment)
    requires i < |threads| && Balanced(threads, orphans, started, replies)
    ensures Balanced(WithReply(threads, i, c), orphans, started, replies + [c])
  {
    ReplyAdded(threads, i, c);
    assert multiset(replies + [c]) == multiset(replies) + multiset{c};
    hide Bag, WithReply;
    BothGain(Bag(threads), multiset(orphans), Bag(started), multiset(replies), multiset{c});
  }

  lemma BalancedOrphan(threads: seq<Thread>, orphans: seq<Comment>, started: seq<Thread>, replies: seq<Comment>,
                       c: Comment)
    requires Balanced(threads, orphans, started, replies)
    ensures Balanced(threads, orphans + [c], started, replies + [c])
  {
    assert multiset(replies + [c]) == multiset(replies) + multiset{c};
    assert multiset(orphans + [c]) == multiset(orphans) + multiset{c};
    hide Bag;
    BothGain(Bag(threads), multiset(orphans), Bag(started), multiset(replies), multiset{c});
  }

  lemma InRange(comments: seq<Comment>, threads: seq<Thread>, at: map<int, nat>, id: int)
    requires Indexed(comments, threads, at) && id in at
    ensures at[id] < |threads| && threads[at[id]].root.id == id
  {
    hide HasRoot;
  }

  lemma OrphanIsHead(comments: seq<Comment>, threads: seq<Thread>, at: map<int, nat>, c: Comment)
    requires Indexed(comments, threads, at) && c.inReplyTo !in at
    ensures IsHead(comments, c)
  {
    hide HasRoot;
  }

  lemma ReplyFits(comments: seq<Comment>, threads: seq<Thread>, at: map<int, nat>, c: Comment)
    requires GoodThreads(comments, threads) && Indexed(comments, threads, at) && !IsRoot(c) && c.inReplyTo in at
    ensures !IsHead(comments, c)
    ensures var more := WithReply(threads, at[c.inReplyTo], c);
            GoodThreads(comments, more) && Indexed(comments, more, at)
  {
    hide HasRoot;
    var i := at[c.inReplyTo];
    assert GoodThread(comments, threads[i]);
  }

  lemma StartedAreGood(comments: seq<Comment>, threads: seq<Thread>)
    requires Started(threads)
    ensures GoodThreads(comments, threads)
  {
  }

  /** The replies to one comment, in order. */
  function AnswersTo(comments: seq<Comment>, id: int): seq<Comment> {
    if comments == [] then []
    else
      var c := comments[|comments| - 1];
      AnswersTo(comments[..|comments| - 1], id) + if !IsRoot(c) && c.inReplyTo == id then [c] else []
  }

  /** The replies among some of the comments whose root is nowhere among all of them. */
  function OrphansOf(all: seq<Comment>, comments: seq<Comment>): seq<Comment> {
    if comments == [] then []
    else
      var c := comments[|comments| - 1];
      OrphansOf(all, comments[..|comments| - 1]) + if IsHead(all, c) && !IsRoot(c) then [c] else []
  }

  lemma AnswersSnoc(comments: seq<Comment>, c: Comment, id: int)
    ensures AnswersTo(comments + [c], id) == AnswersTo(comments, id) + if !IsRoot(c) && c.inReplyTo == id then [c] else []
  {
    assert (comments + [c])[..|comments|] == comments;
  }

  lemma OrphansSnoc(all: seq<Comment>, comments: seq<Comment>, c: Comment)
    ensures OrphansOf(all, comments + [c])
         == if IsHead(all, c) && !IsRoot(c) then OrphansOf(all, comments) + [c] else OrphansOf(all, comments)
  {
    assert (comments + [c])[..|comments|] == comments;
  }

  /** A root's thread with what some of the comments answer, if at names that thread. */
  function Answered(root: Comment, place: nat, at: map<int, nat>, comments: seq<Comment>): Thread {
    Thread(root, if root.id in at && at[root.id] == place then AnswersTo(comments, root.id) else [])
  }

  /** Each thread has the replies so far to its root, in order, and nothing else. */
  ghost predicate Attached(threads: seq<Thread>, started: seq<Thread>, at: map<int, nat>, comments: seq<Comment>) {
    && |threads| == |started|
    && forall i :: 0 <= i < |threads| ==> threads[i] == Answered(started[i].root, i, at, comments)
  }

  lemma AttachedReply(threads: seq<Thread>, started: seq<Thread>, at: map<int, nat>, comments: seq<Comment>, c: Comment)
    requires Attached(threads, started, at, comments) && !IsRoot(c) && c.inReplyTo in at
    requires at[c.inReplyTo] < |threads| && threads[at[c.inReplyTo]].root.id == c.inReplyTo
    ensures Attached(WithReply(threads, at[c.inReplyTo], c), started, at, comments + [c])
  {
    var more := WithReply(threads, at[c.inReplyTo], c);
    forall i | 0 <= i < |threads| ensures more[i] == Answered(started[i].root, i, at, comments + [c]) {
      AnswersSnoc(comments, c, started[i].root.id);
    }
  }

  lemma AttachedOther(threads: seq<Thread>, started: seq<Thread>, at: map<int, nat>, comments: seq<Comment>, c: Comment)
    requires Attached(threads, started, at, comments) && (IsRoot(c) || c.inReplyTo !in at)
    ensures Attached(threads, started, at, comments + [c])
  {
    forall i | 0 <= i < |threads| ensures threads[i] == Answered(started[i].root, i, at, comments + [c]) {
      AnswersSnoc(comments, c, started[i].root.id);
    }
  }

  /** What holds of the threads and the orphans once some of the comments are placed. */
  ghost predicate Attaching(all: seq<Comment>, started: seq<Thread>, at: map<int, nat>, comments: seq<Comment>,
                            threads: seq<Thread>, orphans: seq<Comment>) {
    && GoodThreads(all, threads) && Indexed(all, threads, at)
    && (forall j :: 0 <= j < |orphans| ==> IsHead(all, orphans[j]))
    && Balanced(threads, orphans, started, RepliesOf(comments))
    && Attached(threads, started, at, comments)
    && orphans == OrphansOf(all, comments)
  }

  lemma AttachRoot(all: seq<Comment>, started: seq<Thread>, at: map<int, nat>, comments: seq<Comment>,
                   threads: seq<Thread>, orphans: seq<Comment>, c: Comment)
    requires Attaching(all, started, at, comments, threads, orphans) && IsRoot(c)
    ensures Attaching(all, started, at, comments + [c], threads, orphans)
  {
    hide GoodThreads, Indexed, Balanced, Attached, OrphansOf, RepliesOf;
    RepliesSnoc(comments, c);
    AttachedOther(threads, started, at, comments, c);
    OrphansSnoc(all, comments, c);
  }

  lemma AttachReply(all: seq<Comment>, started: seq<Thread>, at: map<int, nat>, comments: seq<Comment>,
                    threads: seq<Thread>, orphans: seq<Comment>, c: Comment)
    requires Attaching(all, started, at, comments, threads, orphans) && !IsRoot(c) && c.inReplyTo in at
    ensures at[c.inReplyTo] < |threads|
    ensures Attaching(all, started, at, comments + [c], WithReply(threads, at[c.inReplyTo], c), orphans)
  {
    hide GoodThreads, Indexed, IsHead, HasRoot, Balanced, Attached, OrphansOf, RepliesOf, WithReply;
    InRange(all, threads, at, c.inReplyTo);
    ReplyFits(all, threads, at, c);
    RepliesSnoc(comments, c);
    BalancedReply(threads, orphans, started, RepliesOf(comments), at[c.inReplyTo], c);
    AttachedReply(threads, started, at, comments, c);
    OrphansSnoc(all, comments, c);
  }

  lemma AttachOrphan(all: seq<Comment>, started: seq<Thread>, at: map<int, nat>, comments: seq<Comment>,
                     threads: seq<Thread>, orphans: seq<Comment>, c: Comment)
    requires Attaching(all, started, at, comments, threads, orphans) && !IsRoot(c) && c.inReplyTo !in at
    ensures Attaching(all, started, at, comments + [c], threads, orphans + [c])
  {
    hide GoodThreads, Indexed, IsHead, HasRoot, Balanced, Attached, OrphansOf, RepliesOf;
    OrphanIsHead(all, threads, at, c);
    RepliesSnoc(comments, c);
    BalancedOrphan(threads, orphans, started, RepliesOf(comments), c);
    AttachedOther(threads, started, at, comments, c);
    OrphansSnoc(all, comments, c);
  }

  lemma RepliesSnoc(comments: seq<Comment>, c: Comment)
    ensures RepliesOf(comments + [c]) == if IsRoot(c) then RepliesOf(comments) else RepliesOf(comments) + [c]
  {
    assert (comments + [c])[..|comments|] == comments;
  }

  lemma AttachNone(all: seq<Comment>, started: seq<Thread>, at: map<int, nat>)
    requires Started(started) && Indexed(all, started, at)
    ensures Attaching(all, started, at, [], started, [])
  {
    StartedAreGood(all, started);
    hide IsHead, Indexed, GoodThreads, Bag;
    assert multiset(RepliesOf([])) == multiset{};
  }

  /** Puts each reply under its root, and keeps aside the ones whose root is not there. */
  method AttachReplies(comments: seq<Comment>, started: seq<Thread>, at: map<int, nat>)
    returns (threads: seq<Thread>, orphans: seq<Comment>)
    requires Started(started) && Indexed(comments, started, at)
    ensures Attaching(comments, started, at, comments, threads, orphans)
  {
    hide Attaching;
    threads, orphans := started, [];
    AttachNone(comments, started, at);
    assert comments[..0] == [];
    for k := 0 to |comments|
      invariant Attaching(comments, started, at, comments[..k], threads, orphans)
    {
      var c := comments[k];
      assert comments[..k + 1] == comments[..k] + [c];
      if IsRoot(c) {
        AttachRoot(comments, started, at, comments[..k], threads, orphans, c);
      } else if c.inReplyTo in at {
        AttachReply(comments, started, at, comments[..k], threads, orphans, c);
        threads := WithReply(threads, at[c.inReplyTo], c);
      } else {
        AttachOrphan(comments, started, at, comments[..k], threads, orphans, c);
        orphans := orphans + [c];
      }
    }
    assert comments[..|comments|] == comments;
  }

  function WithOrphans(threads: seq<Thread>, orphans: seq<Comment>): seq<Thread> {
    if orphans == [] then threads
    else
      var n := |orphans| - 1;
      WithOrphans(threads, orphans[..n]) + [Thread(orphans[n], [])]
  }

  lemma {:induction false} OrphansAreKept(threads: seq<Thread>, orphans: seq<Comment>)
    ensures Bag(WithOrphans(threads, orphans)) == Bag(threads) + multiset(orphans)
    decreases |orphans|
  {
    hide Bag;
    if orphans != [] {
      var before, last := orphans[..|orphans| - 1], orphans[|orphans| - 1];
      OrphansAreKept(threads, before);
      assert orphans == before + [last];
      OneMoreOrphan(threads, before, last);
    }
  }

  lemma OneMoreOrphan(threads: seq<Thread>, before: seq<Comment>, last: Comment)
    requires Bag(WithOrphans(threads, before)) == Bag(threads) + multiset(before)
    ensures Bag(WithOrphans(threads, before) + [Thread(last, [])]) == Bag(threads) + multiset(before + [last])
  {
    BagSnoc(WithOrphans(threads, before), Thread(last, []));
    assert BagOf(Thread(last, [])) == multiset{last};
    hide *;
    assert multiset(before + [last]) == multiset(before) + multiset{last};
    Swap(Bag(threads), multiset(before), multiset{last});
  }

  lemma {:induction false} OrphansAreGood(comments: seq<Comment>, threads: seq<Thread>, orphans: seq<Comment>)
    requires GoodThreads(comments, threads)
    requires forall k :: 0 <= k < |orphans| ==> IsHead(comments, orphans[k])
    ensures GoodThreads(comments, WithOrphans(threads, orphans))
    decreases |orphans|
  {
    hide IsHead;
    if orphans != [] {
      OrphansAreGood(comments, threads, orphans[..|orphans| - 1]);
    }
  }

  // ---------------------------------------------------------------------
  // Sorting threads
  // ---------------------------------------------------------------------

  lemma {:induction false} InsertKeepsComments(threads: seq<Thread>, t: Thread)
    ensures Bag(Insert(threads, t, ThreadKey)) == Bag(threads) + BagOf(t)
    decreases |threads|
  {
    hide Bag, BagOf;
    if threads != [] && ThreadKey(t) < ThreadKey(threads[|threads| - 1]) {
      var before, last := threads[..|threads| - 1], threads[|threads| - 1];
      InsertKeepsComments(before, t);
      assert threads == before + [last];
      BagSnoc(Insert(before, t, ThreadKey), last);
      BagSnoc(before, last);
      Swap(Bag(before), BagOf(t), BagOf(last));
    } else {
      BagSnoc(threads, t);
    }
  }

  lemma {:induction false} SortKeepsComments(threads: seq<Thread>)
    ensures Bag(Sort(threads, ThreadKey)) == Bag(threads)
    decreases |threads|
  {
    hide Bag, BagOf, Insert;
    if threads != [] {
      var before, last := threads[..|threads| - 1], threads[|threads| - 1];
      SortKeepsComments(before);
      InsertKeepsComments(Sort(before, ThreadKey), last);
      assert threads == before + [last];
      BagSnoc(before, last);
    }
  }

  lemma SortKeepsThreads(comments: seq<Comment>, threads: seq<Thread>)
    requires GoodThreads(comments, threads)
    ensures GoodThreads(comments, Sort(threads, ThreadKey))
  {
    var sorted := Sort(threads, ThreadKey);
    SortSorts(threads, ThreadKey);
    hide GoodThread, Sort;
    forall i | 0 <= i < |sorted| ensures GoodThread(comments, sorted[i]) {
      assert sorted[i] in multiset(sorted);
      assert sorted[i] in threads;
    }
  }

  function InOrder(t: Thread): Thread {
    t.(replies := Sort(t.replies, CommentKey))
  }

  function AllInOrder(threads: seq<Thread>): (out: seq<Thread>)
    ensures |out| == |threads| && forall i :: 0 <= i < |out| ==> out[i] == InOrder(threads[i])
  {
    seq(|threads|, i requires 0 <= i < |threads| => InOrder(threads[i]))
  }

  /** Sorts each thread's replies in turn. */
  method SortReplies(threads: seq<Thread>) returns (out: seq<Thread>)
    ensures out == AllInOrder(threads)
  {
    out := threads;
    for i := 0 to |threads|
      invariant |out| == |threads|
      invariant forall k :: 0 <= k < i ==> out[k] == InOrder(threads[k])
      invariant forall k :: i <= k < |threads| ==> out[k] == threads[k]
    {
      hide Sort;
      out := out[i := out[i].(replies := Sort(out[i].replies, CommentKey))];
    }
  }

  lemma InOrderIsRegrouped(comments: seq<Comment>, threads: seq<Thread>)
    requires GoodThreads(comments, threads) && Ascending(threads, ThreadKey)
    ensures var out := AllInOrder(threads);
            && GoodThreads(comments, out) && Ascending(out, ThreadKey)
            && forall i :: 0 <= i < |out| ==> Ascending(out[i].replies, CommentKey)
  {
    var out := AllInOrder(threads);
    forall i | 0 <= i < |out| ensures GoodThread(comments, out[i]) && Ascending(out[i].replies, CommentKey) {
      RepliesSorted(comments, threads[i]);
    }
  }

  lemma {:induction false} InOrderKeepsComments(threads: seq<Thread>)
    ensures Bag(AllInOrder(threads)) == Bag(threads)
    decreases |threads|
  {
    if threads != [] {
      var before, last := threads[..|threads| - 1], threads[|threads| - 1];
      InOrderKeepsComments(before);
      hide Bag, Sort;
      assert threads == before + [last];
      assert AllInOrder(threads) == AllInOrder(before) + [InOrder(last)];
      BagSnoc(before, last);
      BagSnoc(AllInOrder(before), InOrder(last));
      SortSorts(last.replies, CommentKey);
    } else {
      assert AllInOrder(threads) == [];
    }
  }

  lemma RepliesSorted(comments: seq<Comment>, t: Thread)
    requires GoodThread(comments, t)
    ensures GoodThread(comments, InOrder(t)) && Ascending(InOrder(t).replies, CommentKey)
  {
    var replies := Sort(t.replies, CommentKey);
    SortSorts(t.replies, CommentKey);
    hide Sort, IsHead;
    forall k | 0 <= k < |replies| ensures replies[k].inReplyTo == t.root.id && !IsHead(comments, replies[k]) {
      assert replies[k] in multiset(replies);
      assert replies[k] in t.replies;
    }
  }

  /** The place of the last comment with an id among roots. */
  ghost predicate IsLast(roots: seq<Comment>, i: nat)
    requires i < |roots|
  {
    forall j :: i < j < |roots| ==> roots[j].id != roots[i].id
  }

  /** A root and what answers it; of roots with one id the last has the answers. */
  ghost function RootThread(comments: seq<Comment>, i: nat): Thread
    requires i < |RootsOf(comments)|
  {
    var roots := RootsOf(comments);
    Thread(roots[i], if IsLast(roots, i) then AnswersTo(comments, roots[i].id) else [])
  }

  ghost function RootThreads(comments: seq<Comment>): (threads: seq<Thread>)
    ensures |threads| == |RootsOf(comments)| && forall i :: 0 <= i < |threads| ==> threads[i] == RootThread(comments, i)
  {
    seq(|RootsOf(comments)|, i requires 0 <= i < |RootsOf(comments)| => RootThread(comments, i))
  }

  /** Every root with its answers, in order, and then every orphan alone. */
  ghost function Grouped(comments: seq<Comment>): seq<Thread> {
    WithOrphans(RootThreads(comments), OrphansOf(comments, comments))
  }

  lemma {:induction false} StartedHeads(threads: seq<Thread>)
    requires Started(threads)
    ensures Flatten(threads) == Heads(threads)
    decreases |threads|
  {
    if threads != [] {
      var before, t := threads[..|threads| - 1], threads[|threads| - 1];
      StartedHeads(before);
      assert Heads(threads) == Heads(before) + [t.root];
    }
  }

  /** The index names the last root with an id. */
  lemma IndexIsLast(comments: seq<Comment>, roots: seq<Comment>, started: seq<Thread>, at: map<int, nat>, i: nat)
    requires Heads(started) == roots && Indexed(comments, started, at) && Latest(started, at) && i < |started|
    ensures started[i].root == roots[i]
    ensures IsLast(roots, i) <==> roots[i].id in at && at[roots[i].id] == i
  {
    hide HasRoot;
    var id := roots[i].id;
    assert id in at && started[at[id]].root.id == id && roots[at[id]].id == id;
    forall j | i < j < |roots| ensures roots[j].id == id ==> j <= at[id] {
      assert started[j].root == roots[j];
    }
  }

  lemma AttachedIsGrouped(comments: seq<Comment>, started: seq<Thread>, at: map<int, nat>, threads: seq<Thread>)
    requires Flatten(started) == RootsOf(comments) && Started(started)
    requires Indexed(comments, started, at) && Latest(started, at)
    requires Attached(threads, started, at, comments)
    ensures threads == RootThreads(comments)
  {
    StartedHeads(started);
    hide Flatten, RootsOf, Started, Indexed, Latest, IsLast, AnswersTo;
    forall i | 0 <= i < |threads| ensures threads[i] == RootThread(comments, i) {
      IndexIsLast(comments, RootsOf(comments), started, at, i);
    }
  }

  /** Groups comments into threads, oldest first. */
  method Threads(comments: seq<Comment>) returns (out: seq<Thread>)
    ensures Regrouped(comments, out)
    ensures forall i, j :: 0 <= i < j < |out| ==> out[i].root.id <= out[j].root.id
    ensures forall i, j, k :: 0 <= i < |out| && 0 <= j < k < |out[i].replies| ==>
              out[i].replies[j].id <= out[i].replies[k].id
    // A reply has a thread of its own only where no root has the id it replies to.
    ensures forall i, c :: 0 <= i < |out| && out[i].root.inReplyTo != 0 && c in comments && c.inReplyTo == 0 ==>
              c.id != out[i].root.inReplyTo
    ensures out == AllInOrder(Sort(Grouped(comments), ThreadKey))
  {
    hide Flatten, GoodThreads, Ascending, Sort, Indexed, Latest, Attached, Balanced, RootsOf, RepliesOf, OrphansOf, RootThreads;
    var started, at := StartThreads(comments);
    var threads, orphans := AttachReplies(comments, started, at);
    AttachedIsGrouped(comments, started, at, threads);
    OrphansAreKept(threads, orphans);
    OrphansAreGood(comments, threads, orphans);
    BalancedMeans(comments, threads, orphans, started);
    var all := WithOrphans(threads, orphans);
    SortSorts(all, ThreadKey);
    SortKeepsComments(all);
    SortKeepsThreads(comments, all);
    var sorted := Sort(all, ThreadKey);
    InOrderIsRegrouped(comments, sorted);
    InOrderKeepsComments(sorted);
    out := SortReplies(sorted);
    OldestFirst(out);
    OrphansHaveNoRoot(comments, out);
  }

  lemma OrphansHaveNoRoot(comments: seq<Comment>, threads: seq<Thread>)
    requires GoodThreads(comments, threads)
    ensures forall i, c :: 0 <= i < |threads| && threads[i].root.inReplyTo != 0 && c in comments && c.inReplyTo == 0 ==>
              c.id != threads[i].root.inReplyTo
  {
    forall i, c | 0 <= i < |threads| && threads[i].root.inReplyTo != 0 && c in comments && c.inReplyTo == 0
      ensures c.id != threads[i].root.inReplyTo
    {
      assert GoodThread(comments, threads[i]);
      var k :| 0 <= k < |comments| && comments[k] == c;
      assert IsRoot(comments[k]);
    }
  }

  lemma OldestFirst(threads: seq<Thread>)
    requires Ascending(threads, ThreadKey)
    requires forall i :: 0 <= i < |threads| ==> Ascending(threads[i].replies, CommentKey)
    ensures forall i, j :: 0 <= i < j < |threads| ==> threads[i].root.id <= threads[j].root.id
    ensures forall i, j, k :: 0 <= i < |threads| && 0 <= j < k < |threads[i].replies| ==>
              threads[i].replies[j].id <= threads[i].replies[k].id
  {
    forall i, j | 0 <= i < j < |threads| ensures threads[i].root.id <= threads[j].root.id {
      assert ThreadKey(threads[i]) <= ThreadKey(threads[j]);
    }
    forall i, j, k | 0 <= i < |threads| && 0 <= j < k < |threads[i].replies|
      ensures threads[i].replies[j].id <= threads[i].replies[k].id
    {
      assert CommentKey(threads[i].replies[j]) <= CommentKey(threads[i].replies[k]);
    }
  }

  lemma BalancedMeans(comments: seq<Comment>, threads: seq<Thread>, orphans: seq<Comment>, started: seq<Thread>)
    requires Balanced(threads, orphans, started, RepliesOf(comments)) && Flatten(started) == RootsOf(comments)
    ensures Bag(threads) + multiset(orphans) == multiset(comments)
  {
    RootsAndReplies(comments);
  }

  // ---------------------------------------------------------------------
  // What the grouping says
  // ---------------------------------------------------------------------

  predicate IsOpen(c: Comment) {
    c.resolvedAt == 0
  }

  /** Which of the first k threads nobody has resolved. */
  function OpenAt(threads: seq<Thread>, k: nat): set<int>
    requires k <= |threads|
  {
    set i | 0 <= i < k && threads[i].root.resolvedAt == 0
  }

  lemma OpenSnoc(threads: seq<Thread>, k: nat)
    requires k < |threads|
    ensures OpenAt(threads, k + 1) == OpenAt(threads, k) + (if threads[k].root.resolvedAt == 0 then {k} else {})
    ensures k !in OpenAt(threads, k)
  {
  }

  /** The threads still open. */
  method OpenThreads(threads: seq<Thread>) returns (n: nat)
    ensures n == |OpenAt(threads, |threads|)|
    ensures n == Count(Heads(threads), IsOpen)
  {
    hide Count;
    n := 0;
    NothingCounted(IsOpen);
    assert Heads(threads)[..0] == [];
    for k := 0 to |threads|
      invariant n == |OpenAt(threads, k)|
      invariant n == Count(Heads(threads)[..k], IsOpen)
    {
      OpenSnoc(threads, k);
      assert Heads(threads)[..k + 1] == Heads(threads)[..k] + [threads[k].root];
      CountSnoc(Heads(threads)[..k], threads[k].root, IsOpen);
      if IsOpen(threads[k].root) {
        n := n + 1;
      }
    }
    assert Heads(threads)[..|threads|] == Heads(threads);
  }

  function Heads(threads: seq<Thread>): (heads: seq<Comment>)
    ensures |heads| == |threads| && forall k :: 0 <= k < |heads| ==> heads[k] == threads[k].root
  {
    seq(|threads|, k requires 0 <= k < |threads| => threads[k].root)
  }

  function Count(s: seq<Comment>, p: Comment -> bool): nat {
    if s == [] then 0 else Count(s[..|s| - 1], p) + if p(s[|s| - 1]) then 1 else 0
  }

  lemma NothingCounted(p: Comment -> bool)
    ensures Count([], p) == 0
  {
  }

  lemma CountSnoc(s: seq<Comment>, c: Comment, p: Comment -> bool)
    ensures Count(s + [c], p) == Count(s, p) + if p(c) then 1 else 0
  {
    assert (s + [c])[..|s|] == s;
  }

  lemma {:induction false} CountConcat(a: seq<Comment>, b: seq<Comment>, p: Comment -> bool)
    ensures Count(a + b, p) == Count(a, p) + Count(b, p)
    decreases |b|
  {
    if b == [] {
      assert a + b == a;
    } else {
      var before, last := b[..|b| - 1], b[|b| - 1];
      CountConcat(a, before, p);
      assert a + b == (a + before) + [last] && b == before + [last];
      CountSnoc(a + before, last, p);
      CountSnoc(before, last, p);
    }
  }

  lemma {:induction false} CountOfPermutation(a: seq<Comment>, b: seq<Comment>, p: Comment -> bool)
    requires multiset(a) == multiset(b)
    ensures Count(a, p) == Count(b, p)
    decreases |a|
  {
    if a == [] {
      assert |multiset(b)| == 0;
      assert b == [];
    } else {
      var before, last := a[..|a| - 1], a[|a| - 1];
      assert a == before + [last];
      assert multiset(a) == multiset(before) + multiset{last};
      assert last in multiset(b);
      var i :| 0 <= i < |b| && b[i] == last;
      TakenOut(b, i, p);
      CancelOne(multiset(before), multiset(b[..i] + b[i + 1..]), last);
      CountOfPermutation(before, b[..i] + b[i + 1..], p);
    }
  }

  lemma CancelOne<T>(a: multiset<T>, b: multiset<T>, x: T)
    requires a + multiset{x} == b + multiset{x}
    ensures a == b
  {
    assert a == (a + multiset{x}) - multiset{x};
    assert b == (b + multiset{x}) - multiset{x};
  }

  lemma TakenOut(b: seq<Comment>, i: nat, p: Comment -> bool)
    requires i < |b|
    ensures var rest := b[..i] + b[i + 1..];
            && multiset(rest) + multiset{b[i]} == multiset(b)
            && Count(b, p) == Count(rest, p) + if p(b[i]) then 1 else 0
  {
    var x, y := b[..i], b[i + 1..];
    assert b == (x + [b[i]]) + y;
    assert multiset((x + [b[i]]) + y) == multiset(x) + multiset{b[i]} + multiset(y);
    assert multiset(x + y) == multiset(x) + multiset(y);
    hide Count;
    CountConcat(x + [b[i]], y, p);
    CountSnoc(x, b[i], p);
    CountConcat(x, y, p);
  }

  ghost function OpenHead(comments: seq<Comment>): Comment -> bool {
    c => IsHead(comments, c) && IsOpen(c)
  }

  lemma {:induction false} NoHeads(comments: seq<Comment>, replies: seq<Comment>)
    requires forall k :: 0 <= k < |replies| ==> !IsHead(comments, replies[k])
    ensures Count(replies, OpenHead(comments)) == 0
    decreases |replies|
  {
    hide IsHead;
    if replies != [] { NoHeads(comments, replies[..|replies| - 1]); }
  }

  lemma {:induction false} OpenHeadsOf(comments: seq<Comment>, threads: seq<Thread>)
    requires GoodThreads(comments, threads)
    ensures Count(Flatten(threads), OpenHead(comments)) == Count(Heads(threads), IsOpen)
    decreases |threads|
  {
    if threads != [] {
      var before, t := threads[..|threads| - 1], threads[|threads| - 1];
      OpenHeadsOf(comments, before);
      assert threads == before + [t];
      assert GoodThread(comments, t);
      OneThread(comments, before, t);
    }
  }

  lemma OneThread(comments: seq<Comment>, before: seq<Thread>, t: Thread)
    requires GoodThread(comments, t)
    ensures Count(Flatten(before + [t]), OpenHead(comments))
         == Count(Flatten(before), OpenHead(comments)) + if IsOpen(t.root) then 1 else 0
    ensures Count(Heads(before + [t]), IsOpen) == Count(Heads(before), IsOpen) + if IsOpen(t.root) then 1 else 0
  {
    var p := OpenHead(comments);
    FlattenSnoc(before, t);
    NoHeads(comments, t.replies);
    assert Heads(before + [t]) == Heads(before) + [t.root];
    hide Flatten, Heads, Count;
    CountConcat(Flatten(before) + [t.root], t.replies, p);
    CountSnoc(Flatten(before), t.root, p);
    CountSnoc(Heads(before), t.root, IsOpen);
  }

  /** The open threads are the unresolved roots and orphans of the input. */
  lemma OpenThreadsAreOpenHeads(comments: seq<Comment>, threads: seq<Thread>)
    requires Regrouped(comments, threads)
    ensures Count(Heads(threads), IsOpen) == Count(comments, OpenHead(comments))
  {
    OpenHeadsOf(comments, threads);
    CountOfPermutation(Flatten(threads), comments, OpenHead(comments));
  }
}
