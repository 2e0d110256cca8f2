/** Alert rules over a batch of events: what the indexed, cached evaluation
    computes, and the plain loop it stands for. */
module Alerts {
  import opened Wrappers

  /** A value a payload or a row may hold. */
  datatype Value = Text(s: string) | Number(n: int)

  datatype Condition = Condition(field: string, op: string, value: Value)

  datatype Rule = Rule(id: int, eventType: string, conditions: seq<Condition>, channel: string, target: string)

  datatype Event = Event(id: int, eventType: string, actor: int, subjectKind: string, subject: int,
                         payload: map<string, Value>)

  datatype User = User(id: int, uid: string, email: string, name: string)

  datatype Document = Document(uid: string, kind: string, state: string, elementType: string, site: int,
                               category: string, assignedTo: int, currentVersion: int)

  datatype Version = Version(title: string, slug: string, number: int)

  /** What is left abstract: one operator applied to a value, trimming, and which addresses are valid. */
  datatype Semantics = Semantics(
    compare: (Value, Condition) -> bool,
    trim: string -> string,
    validEmail: string -> bool)

  /** An unchanging store whose reads succeed or find nothing. */
  datatype Store = Store(
    users: map<int, User>, usersByUID: map<string, User>, roles: map<string, seq<User>>,
    documents: map<int, Document>, versions: map<int, Version>)

  /** The two user lookups read one table, whose ids and uids are unique, and roles list its rows. */
  ghost predicate Integrity(db: Store) {
    && (forall id :: id in db.users ==>
          var u := db.users[id]; u.id == id && u.uid in db.usersByUID && db.usersByUID[u.uid] == u)
    && (forall uid :: uid in db.usersByUID ==>
          var u := db.usersByUID[uid]; u.uid == uid && u.id in db.users && db.users[u.id] == u)
    && (forall slug, k :: slug in db.roles && 0 <= k < |db.roles[slug]| ==>
          var u := db.roles[slug][k]; u.id in db.users && db.users[u.id] == u)
  }

  const IN_APP := "in_app"
  const EMAIL := "email"

  // ---------------------------------------------------------------------
  // Targets
  // ---------------------------------------------------------------------

  datatype Target = UserTarget(uid: string) | RoleTarget(slug: string) | EmailTarget(address: string)

  /** The index of the first colon, or the length. */
  function Colon(s: string): (n: nat)
    ensures n <= |s|
  {
    if s == "" || s[0] == ':' then 0 else 1 + Colon(s[1..])
  }

  function ParseTarget(sem: Semantics, s: string, channel: string): Option<Target> {
    var n := Colon(s);
    if n == |s| then None
    else
      var kind, name := s[..n], sem.trim(s[n + 1..]);
      if name == "" then None
      else if kind == "user" then Some(UserTarget(name))
      else if kind == "role" then Some(RoleTarget(name))
      else if kind == "email" && channel == EMAIL && sem.validEmail(name) then Some(EmailTarget(name))
      else None
  }

  // ---------------------------------------------------------------------
  // The plain evaluation
  // ---------------------------------------------------------------------

  datatype Facts = Facts(actor: map<string, Value>, payload: map<string, Value>, subject: map<string, Value>)

  /** The first source that has the field: the actor, the payload, the subject. */
  function FieldOf(f: Facts, field: string): Option<Value> {
    if field in f.actor then Some(f.actor[field])
    else if field in f.payload then Some(f.payload[field])
    else if field in f.subject then Some(f.subject[field])
    else None
  }

  predicate ConditionHolds(sem: Semantics, c: Condition, f: Facts) {
    FieldOf(f, c.field).Some? && sem.compare(FieldOf(f, c.field).value, c)
  }

  /** Every condition, or none of it. */
  predicate RuleMatches(sem: Semantics, r: Rule, f: Facts) {
    forall k :: 0 <= k < |r.conditions| ==> ConditionHolds(sem, r.conditions[k], f)
  }

  function ActorFacts(u: User): map<string, Value> {
    map["actor_uid" := Text(u.uid), "actor_email" := Text(u.email), "actor_name" := Text(u.name)]
  }

  function DocumentFacts(d: Document): map<string, Value> {
    map["uid" := Text(d.uid), "kind" := Text(d.kind), "state" := Text(d.state),
        "element_type" := Text(d.elementType), "site" := Number(d.site), "category" := Text(d.category)]
  }

  function AssigneeFacts(u: User): map<string, Value> {
    map["assignee" := Text(u.uid), "assignee_email" := Text(u.email)]
  }

  function VersionFacts(v: Version): map<string, Value> {
    map["title" := Text(v.title), "slug" := Text(v.slug), "version" := Number(v.number)]
  }

  function UserFacts(u: User): map<string, Value> {
    map["uid" := Text(u.uid), "email" := Text(u.email), "name" := Text(u.name)]
  }

  function SubjectOf(db: Store, e: Event): map<string, Value> {
    var kind := map["subject_kind" := Text(e.subjectKind)];
    if e.subjectKind == "document" then
      match Lookup(db.documents, e.subject)
      case None => kind
      case Some(d) =>
        var withAssignee :=
          if d.assignedTo != 0 && d.assignedTo in db.users
          then kind + DocumentFacts(d) + AssigneeFacts(db.users[d.assignedTo]) else kind + DocumentFacts(d);
        if d.currentVersion != 0 && d.currentVersion in db.versions
        then withAssignee + VersionFacts(db.versions[d.currentVersion]) else withAssignee
    else if e.subjectKind == "user" then
      match Lookup(db.users, e.subject)
      case None => kind
      case Some(u) => kind + UserFacts(u)
    else kind
  }

  function FactsOf(db: Store, e: Event): Facts {
    Facts(if e.actor != 0 && e.actor in db.users then ActorFacts(db.users[e.actor]) else map[],
          e.payload, SubjectOf(db, e))
  }

  /** Somebody to tell: a user, or a bare address. */
  datatype Recipient = Recipient(user: Option<User>, address: string)

  function People(users: seq<User>): (rs: seq<Recipient>)
    ensures |rs| == |users| && forall k :: 0 <= k < |rs| ==> rs[k] == Recipient(Some(users[k]), users[k].email)
  {
    seq(|users|, k requires 0 <= k < |users| => Recipient(Some(users[k]), users[k].email))
  }

  function RecipientsOf(sem: Semantics, db: Store, r: Rule): seq<Recipient> {
    match ParseTarget(sem, r.target, r.channel)
    case None => []
    case Some(EmailTarget(address)) => [Recipient(None, address)]
    case Some(UserTarget(uid)) => if uid in db.usersByUID then People([db.usersByUID[uid]]) else []
    case Some(RoleTarget(slug)) => if slug in db.roles then People(db.roles[slug]) else []
  }

  /** A notification row to write. Its user is zero where the recipient is nobody's account. */
  datatype Note = Note(user: int, event: int, rule: int)

  datatype Delivery = Delivery(rule: Rule, event: Event, recipient: Recipient)

  datatype Output = Output(notes: seq<Note>, deliveries: seq<Delivery>)

  const NOTHING := Output([], [])

  function Both(a: Output, b: Output): Output {
    Output(a.notes + b.notes, a.deliveries + b.deliveries)
  }

  function Tell(r: Rule, e: Event, who: Recipient): Output {
    if r.channel == IN_APP then
      Output([Note(if who.user.Some? then who.user.value.id else 0, e.id, r.id)], [])
    else Output([], [Delivery(r, e, who)])
  }

  function TellAll(r: Rule, e: Event, whos: seq<Recipient>): Output {
    if whos == [] then NOTHING
    else Both(TellAll(r, e, whos[..|whos| - 1]), Tell(r, e, whos[|whos| - 1]))
  }

  /** What one rule says about one event. */
  function Fire(sem: Semantics, db: Store, r: Rule, e: Event): Output {
    if RuleMatches(sem, r, FactsOf(db, e)) then TellAll(r, e, RecipientsOf(sem, db, r)) else NOTHING
  }

  /** What every rule says about one event: each rule is asked, in order. */
  function EventOutput(sem: Semantics, db: Store, rules: seq<Rule>, e: Event): Output {
    if rules == [] then NOTHING
    else
      var r := rules[|rules| - 1];
      Both(EventOutput(sem, db, rules[..|rules| - 1], e),
           if r.eventType == e.eventType then Fire(sem, db, r, e) else NOTHING)
  }

  /** Every event against every rule, with no index and no cache. */
  function Evaluation(sem: Semantics, db: Store, rules: seq<Rule>, events: seq<Event>): Output {
    if events == [] then NOTHING
    else Both(Evaluation(sem, db, rules, events[..|events| - 1]), EventOutput(sem, db, rules, events[|events| - 1]))
  }

  // ---------------------------------------------------------------------
  // The resolver
  // ---------------------------------------------------------------------

  /** The rows one pass has read, so that it reads each once. */
  class Resolver {
    const db: Store
    var usersByID: map<int, User>
    var usersByUID: map<string, User>
    var roles: map<string, seq<User>>
    var documents: map<int, Document>
    var versions: map<int, Version>

    ghost predicate Valid()
      reads this
    {
      && Integrity(db)
      && (forall id :: id in usersByID ==> id in db.users && usersByID[id] == db.users[id])
      && (forall uid :: uid in usersByUID ==> uid in db.usersByUID && usersByUID[uid] == db.usersByUID[uid])
      && (forall slug :: slug in roles ==> roles[slug] == if slug in db.roles then db.roles[slug] else [])
      && (forall id :: id in documents ==> id in db.documents && documents[id] == db.documents[id])
      && (forall id :: id in versions ==> id in db.versions && versions[id] == db.versions[id])
    }

    constructor (db: Store)
      requires Integrity(db)
      ensures Valid() && this.db == db
    {
      this.db := db;
      usersByID, usersByUID, roles, documents, versions := map[], map[], map[], map[], map[];
    }

    method UserByID(id: int) returns (r: Option<User>)
      requires Valid()
      modifies this
      ensures Valid() && r == Lookup(db.users, id)
    {
      if id in usersByID {
        return Some(usersByID[id]);
      }
      if id !in db.users {
        return None;
      }
      var u := db.users[id];
      usersByID := usersByID[id := u];
      usersByUID := usersByUID[u.uid := u];
      return Some(u);
    }

    method UserByUID(uid: string) returns (r: Option<User>)
      requires Valid()
      modifies this
      ensures Valid() && r == Lookup(db.usersByUID, uid)
    {
      if uid in usersByUID {
        return Some(usersByUID[uid]);
      }
      if uid !in db.usersByUID {
        return None;
      }
      var u := db.usersByUID[uid];
      usersByUID := usersByUID[uid := u];
      usersByID := usersByID[u.id := u];
      return Some(u);
    }

    method UsersWithRole(slug: string) returns (r: seq<User>)
      requires Valid()
      modifies this
      ensures Valid() && r == if slug in db.roles then db.roles[slug] else []
    {
      if slug in roles {
        return roles[slug];
      }
      r := if slug in db.roles then db.roles[slug] else [];
      roles := roles[slug := r];
    }

    method Document(id: int) returns (r: Option<Document>)
      requires Valid()
      modifies this
      ensures Valid() && r == Lookup(db.documents, id)
    {
      if id in documents {
        return Some(documents[id]);
      }
      if id !in db.documents {
        return None;
      }
      documents := documents[id := db.documents[id]];
      return Some(documents[id]);
    }

    method Version(id: int) returns (r: Option<Version>)
      requires Valid()
      modifies this
      ensures Valid() && r == Lookup(db.versions, id)
    {
      if id in versions {
        return Some(versions[id]);
      }
      if id !in db.versions {
        return None;
      }
      versions := versions[id := db.versions[id]];
      return Some(versions[id]);
    }

    /** The row an event is about, as facts. */
    method Subject(e: Event) returns (out: map<string, Value>)
      requires Valid()
      modifies this
      ensures Valid() && out == SubjectOf(db, e)
    {
      hide Integrity;
      out := map["subject_kind" := Text(e.subjectKind)];
      if e.subjectKind == "document" {
        var doc := Document(e.subject);
        if doc.None? {
          return;
        }
        var d := doc.value;
        out := out + DocumentFacts(d);
        if d.assignedTo != 0 {
          var u := UserByID(d.assignedTo);
          if u.Some? {
            out := out + AssigneeFacts(u.value);
          }
        }
        if d.currentVersion != 0 {
          var v := Version(d.currentVersion);
          if v.Some? {
            out := out + VersionFacts(v.value);
          }
        }
      } else if e.subjectKind == "user" {
        var u := UserByID(e.subject);
        if u.None? {
          return;
        }
        out := out + UserFacts(u.value);
      }
    }

    /** The three sources a condition's field is resolved from. */
    method FactsFor(e: Event) returns (f: Facts)
      requires Valid()
      modifies this
      ensures Valid() && f == FactsOf(db, e)
    {
      hide Integrity;
      var actor: map<string, Value> := map[];
      if e.actor != 0 {
        var u := UserByID(e.actor);
        if u.Some? {
          actor := ActorFacts(u.value);
        }
      }
      var subject := Subject(e);
      f := Facts(actor, e.payload, subject);
    }

    /** The people a rule's target names. */
    method Recipients(sem: Semantics, r: Rule) returns (whos: seq<Recipient>)
      requires Valid()
      modifies this
      ensures Valid() && whos == RecipientsOf(sem, db, r)
    {
      hide Integrity;
      match ParseTarget(sem, r.target, r.channel)
      case None =>
        whos := [];
      case Some(EmailTarget(address)) =>
        whos := [Recipient(None, address)];
      case Some(UserTarget(uid)) =>
        var u := UserByUID(uid);
        whos := if u.Some? then [Recipient(Some(u.value), u.value.email)] else [];
        assert u.Some? ==> whos == People([u.value]);
      case Some(RoleTarget(slug)) =>
        var users := UsersWithRole(slug);
        whos := People(users);
    }
  }

  // ---------------------------------------------------------------------
  // The indexed evaluation
  // ---------------------------------------------------------------------

  /** The rules of one event type, in their order. */
  function OfType(rules: seq<Rule>, eventType: string): seq<Rule> {
    if rules == [] then []
    else OfType(rules[..|rules| - 1], eventType)
         + (if rules[|rules| - 1].eventType == eventType then [rules[|rules| - 1]] else [])
  }

  function Indexed(byType: map<string, seq<Rule>>, eventType: string): seq<Rule> {
    if eventType in byType then byType[eventType] else []
  }

  method IndexRules(rules: seq<Rule>) returns (byType: map<string, seq<Rule>>)
    ensures forall t :: Indexed(byType, t) == OfType(rules, t)
  {
    byType := map[];
    for k := 0 to |rules|
      invariant forall t :: Indexed(byType, t) == OfType(rules[..k], t)
    {
      assert rules[..k + 1][..k] == rules[..k];
      byType := byType[rules[k].eventType := Indexed(byType, rules[k].eventType) + [rules[k]]];
    }
    assert rules[..|rules|] == rules;
  }

  /** What a list of rules, all asked, says about an event. */
  function FireAll(sem: Semantics, db: Store, rules: seq<Rule>, e: Event): Output {
    if rules == [] then NOTHING
    else Both(FireAll(sem, db, rules[..|rules| - 1], e), Fire(sem, db, rules[|rules| - 1], e))
  }

  lemma {:induction false} FireAllSnoc(sem: Semantics, db: Store, rules: seq<Rule>, r: Rule, e: Event)
    ensures FireAll(sem, db, rules + [r], e) == Both(FireAll(sem, db, rules, e), Fire(sem, db, r, e))
  {
    assert (rules + [r])[..|rules|] == rules;
  }

  /** Asking only the rules of the event's type is asking every rule. */
  lemma {:induction false} IndexLosesNothing(sem: Semantics, db: Store, rules: seq<Rule>, e: Event)
    ensures FireAll(sem, db, OfType(rules, e.eventType), e) == EventOutput(sem, db, rules, e)
    decreases |rules|
  {
    hide Fire;
    if rules != [] {
      var init, r := rules[..|rules| - 1], rules[|rules| - 1];
      IndexLosesNothing(sem, db, init, e);
      if r.eventType == e.eventType {
        FireAllSnoc(sem, db, OfType(init, e.eventType), r, e);
      } else {
        assert OfType(init, e.eventType) + [] == OfType(init, e.eventType);
      }
    }
  }

  /** Tells everybody a matching rule names. */
  method Spread(r: Rule, e: Event, whos: seq<Recipient>, out: Output) returns (more: Output)
    ensures more == Both(out, TellAll(r, e, whos))
  {
    more := out;
    for k := 0 to |whos|
      invariant more == Both(out, TellAll(r, e, whos[..k]))
    {
      assert whos[..k + 1][..k] == whos[..k];
      ghost var before := more;
      if r.channel == IN_APP {
        var user := if whos[k].user.Some? then whos[k].user.value.id else 0;
        more := Output(more.notes + [Note(user, e.id, r.id)], more.deliveries);
      } else {
        more := Output(more.notes, more.deliveries + [Delivery(r, e, whos[k])]);
      }
      assert more == Both(before, Tell(r, e, whos[k]));
      BothAssociates(out, TellAll(r, e, whos[..k]), Tell(r, e, whos[k]));
    }
    assert whos[..|whos|] == whos;
  }

  lemma BothAssociates(a: Output, b: Output, c: Output)
    ensures Both(Both(a, b), c) == Both(a, Both(b, c))
    ensures Both(a, NOTHING) == a
  {
  }

  /** Asks each of the rules of an event's type. */
  method AskAll(sem: Semantics, cache: Resolver, matching: seq<Rule>, e: Event, facts: Facts, out: Output)
    returns (more: Output)
    requires cache.Valid() && facts == FactsOf(cache.db, e)
    modifies cache
    ensures cache.Valid()
    ensures more == Both(out, FireAll(sem, cache.db, matching, e))
  {
    hide Integrity, RuleMatches, RecipientsOf, TellAll, FactsOf, Both;
    BothAssociates(out, NOTHING, NOTHING);
    more := out;
    for k := 0 to |matching|
      invariant cache.Valid()
      invariant more == Both(out, FireAll(sem, cache.db, matching[..k], e))
    {
      var r := matching[k];
      assert matching[..k + 1][..k] == matching[..k];
      BothAssociates(out, FireAll(sem, cache.db, matching[..k], e), Fire(sem, cache.db, r, e));
      BothAssociates(more, NOTHING, NOTHING);
      if !RuleMatches(sem, r, facts) {
        continue;
      }
      var whos := cache.Recipients(sem, r);
      more := Spread(r, e, whos, more);
    }
    assert matching[..|matching|] == matching;
  }

  /** Matches every event against every rule of its type, through the index, the
      per-event facts and the caches. */
  method Evaluate(sem: Semantics, db: Store, events: seq<Event>, rules: seq<Rule>) returns (out: Output)
    requires Integrity(db)
    ensures out == Evaluation(sem, db, rules, events)
  {
    hide Integrity, FactsOf, FireAll, EventOutput, Both;
    var byType := IndexRules(rules);
    var cache := new Resolver(db);
    out := NOTHING;
    for k := 0 to |events|
      invariant cache.Valid() && cache.db == db && fresh(cache)
      invariant out == Evaluation(sem, db, rules, events[..k])
    {
      var e := events[k];
      assert events[..k + 1][..k] == events[..k];
      IndexLosesNothing(sem, db, rules, e);
      var matching := if e.eventType in byType then byType[e.eventType] else [];
      assert matching == Indexed(byType, e.eventType);
      if |matching| == 0 {
        NobodyAsked(sem, db, e, out);
        continue;
      }
      var facts := cache.FactsFor(e);
      out := AskAll(sem, cache, matching, e, facts, out);
    }
    assert events[..|events|] == events;
  }

  lemma NobodyAsked(sem: Semantics, db: Store, e: Event, out: Output)
    ensures Both(out, FireAll(sem, db, [], e)) == out
  {
  }

  // ---------------------------------------------------------------------
  // What the plain evaluation promises
  // ---------------------------------------------------------------------

  /** A note is about a real user, this event, and a rule of its type. */
  ghost predicate GoodNote(db: Store, rules: seq<Rule>, e: Event, n: Note) {
    && n.user in db.users && n.event == e.id
    && exists r :: r in rules && r.id == n.rule && r.eventType == e.eventType && r.channel == IN_APP
  }

  /** An address is only ever told by e-mail, so an in-app rule tells users. */
  lemma {:induction false} TellsUsers(sem: Semantics, db: Store, r: Rule, k: nat)
    requires Integrity(db) && r.channel == IN_APP && k < |RecipientsOf(sem, db, r)|
    ensures var who := RecipientsOf(sem, db, r)[k]; who.user.Some? && who.user.value.id in db.users
  {
  }

  lemma {:induction false} TellAllNotes(r: Rule, e: Event, whos: seq<Recipient>, n: Note)
    requires n in TellAll(r, e, whos).notes
    ensures r.channel == IN_APP && n.event == e.id && n.rule == r.id
    ensures exists k :: 0 <= k < |whos| && n.user == if whos[k].user.Some? then whos[k].user.value.id else 0
    decreases |whos|
  {
    var init := whos[..|whos| - 1];
    if n in TellAll(r, e, init).notes {
      TellAllNotes(r, e, init, n);
      var k :| 0 <= k < |init| && n.user == if init[k].user.Some? then init[k].user.value.id else 0;
      assert whos[k] == init[k];
    } else {
      assert n in Tell(r, e, whos[|whos| - 1]).notes;
    }
  }

  /** Every in-app note names a real user and the event and rule it came from. */
  lemma {:induction false} NotesAreGood(sem: Semantics, db: Store, rules: seq<Rule>, e: Event, n: Note)
    requires Integrity(db) && n in EventOutput(sem, db, rules, e).notes
    ensures GoodNote(db, rules, e, n)
    decreases |rules|
  {
    var init, r := rules[..|rules| - 1], rules[|rules| - 1];
    hide RecipientsOf, TellAll, FactsOf, RuleMatches, Integrity;
    if n in EventOutput(sem, db, init, e).notes {
      NotesAreGood(sem, db, init, e, n);
      var r' :| r' in init && r'.id == n.rule && r'.eventType == e.eventType && r'.channel == IN_APP;
      assert r' in rules;
    } else {
      assert n in Fire(sem, db, r, e).notes;
      var whos := RecipientsOf(sem, db, r);
      TellAllNotes(r, e, whos, n);
      var k :| 0 <= k < |whos| && n.user == if whos[k].user.Some? then whos[k].user.value.id else 0;
      TellsUsers(sem, db, r, k);
    }
  }

  // ---------------------------------------------------------------------
  // What a rule decides
  // ---------------------------------------------------------------------

  /** A user as the acting one: the three names that say so. */
  ghost predicate ActorHas(u: User, field: string, v: Value) {
    || (field == "actor_uid" && v == Text(u.uid))
    || (field == "actor_email" && v == Text(u.email))
    || (field == "actor_name" && v == Text(u.name))
  }

  ghost predicate AssigneeHas(u: User, field: string, v: Value) {
    || (field == "assignee" && v == Text(u.uid))
    || (field == "assignee_email" && v == Text(u.email))
  }

  ghost predicate VersionHas(ver: Version, field: string, v: Value) {
    || (field == "title" && v == Text(ver.title))
    || (field == "slug" && v == Text(ver.slug))
    || (field == "version" && v == Number(ver.number))
  }

  ghost predicate PlainHas(d: Document, field: string, v: Value) {
    || (field == "uid" && v == Text(d.uid))
    || (field == "kind" && v == Text(d.kind))
    || (field == "state" && v == Text(d.state))
    || (field == "element_type" && v == Text(d.elementType))
    || (field == "site" && v == Number(d.site))
    || (field == "category" && v == Text(d.category))
  }

  ghost predicate DocumentHas(db: Store, d: Document, field: string, v: Value) {
    || PlainHas(d, field, v)
    || (d.assignedTo != 0 && d.assignedTo in db.users && AssigneeHas(db.users[d.assignedTo], field, v))
    || (d.currentVersion != 0 && d.currentVersion in db.versions && VersionHas(db.versions[d.currentVersion], field, v))
  }

  ghost predicate UserHas(u: User, field: string, v: Value) {
    || (field == "uid" && v == Text(u.uid))
    || (field == "email" && v == Text(u.email))
    || (field == "name" && v == Text(u.name))
  }

  /** What the row an event is about says of a field. */
  ghost predicate SubjectHas(db: Store, e: Event, field: string, v: Value) {
    || (field == "subject_kind" && v == Text(e.subjectKind))
    || (e.subjectKind == "document" && e.subject in db.documents && DocumentHas(db, db.documents[e.subject], field, v))
    || (e.subjectKind == "user" && e.subject in db.users && UserHas(db.users[e.subject], field, v))
  }

  /** Whether the event has an acting user who is still there. */
  ghost predicate Acted(db: Store, e: Event) {
    e.actor != 0 && e.actor in db.users
  }

  /** The value an event carries for a field: what the acting user says, if anything;
      else what the payload says; else what the subject says. */
  ghost predicate Carries(db: Store, e: Event, field: string, v: Value) {
    if Acted(db, e) && field in {"actor_uid", "actor_email", "actor_name"} then ActorHas(db.users[e.actor], field, v)
    else if field in e.payload then v == e.payload[field]
    else SubjectHas(db, e, field, v)
  }

  /** What tells the field names apart: how long each is and how it begins. */
  function Shape(field: string): (int, char, char) {
    if |field| < 2 then (0, ' ', ' ') else (|field|, field[0], field[1])
  }

  lemma Shapes()
    ensures Shape("subject_kind") == (12, 's', 'u') && Shape("uid") == (3, 'u', 'i') && Shape("kind") == (4, 'k', 'i')
    ensures Shape("state") == (5, 's', 't') && Shape("element_type") == (12, 'e', 'l') && Shape("site") == (4, 's', 'i')
    ensures Shape("category") == (8, 'c', 'a') && Shape("assignee") == (8, 'a', 's')
    ensures Shape("assignee_email") == (14, 'a', 's') && Shape("title") == (5, 't', 'i')
    ensures Shape("slug") == (4, 's', 'l') && Shape("version") == (7, 'v', 'e')
    ensures Shape("email") == (5, 'e', 'm') && Shape("name") == (4, 'n', 'a')
    ensures Shape("actor_uid") == (9, 'a', 'c') && Shape("actor_email") == (11, 'a', 'c') && Shape("actor_name") == (10, 'a', 'c')
  {
  }

  const PLAIN := {"uid", "kind", "state", "element_type", "site", "category"}
  const ASSIGNEE := {"assignee", "assignee_email"}
  const EDITION := {"title", "slug", "version"}
  const ACCOUNT := {"uid", "email", "name"}

  lemma PlainSays(d: Document, field: string, v: Value)
    ensures Lookup(DocumentFacts(d), field) == Some(v) <==> PlainHas(d, field, v)
    ensures field in DocumentFacts(d) <==> field in PLAIN
  {
    Shapes();
    hide Shape;
  }

  lemma AssigneeSays(u: User, field: string, v: Value)
    ensures Lookup(AssigneeFacts(u), field) == Some(v) <==> AssigneeHas(u, field, v)
    ensures field in AssigneeFacts(u) <==> field in ASSIGNEE
  {
    Shapes();
    hide Shape;
  }

  lemma VersionSays(ver: Version, field: string, v: Value)
    ensures Lookup(VersionFacts(ver), field) == Some(v) <==> VersionHas(ver, field, v)
    ensures field in VersionFacts(ver) <==> field in EDITION
  {
    Shapes();
    hide Shape;
  }

  lemma UserSays(u: User, field: string, v: Value)
    ensures Lookup(UserFacts(u), field) == Some(v) <==> UserHas(u, field, v)
    ensures field in UserFacts(u) <==> field in ACCOUNT
  {
    Shapes();
    hide Shape;
  }

  lemma ActorSays(u: User, field: string, v: Value)
    ensures Lookup(ActorFacts(u), field) == Some(v) <==> ActorHas(u, field, v)
    ensures field in ActorFacts(u) <==> field in {"actor_uid", "actor_email", "actor_name"}
  {
    Shapes();
    hide Shape;
  }

  /** No name is the subject kind's, and no two sources share one. */
  lemma NamesApart(field: string)
    ensures field in PLAIN ==> field != "subject_kind" && field !in ASSIGNEE && field !in EDITION
    ensures field in ASSIGNEE ==> field != "subject_kind" && field !in EDITION
    ensures field in EDITION || field in ACCOUNT ==> field != "subject_kind"
  {
    Shapes();
    hide Shape;
  }

  lemma Overlaid<K, V>(a: map<K, V>, b: map<K, V>, k: K)
    ensures Lookup(a + b, k) == if k in b then Lookup(b, k) else Lookup(a, k)
  {
  }

  lemma KindSays(kind: string, field: string)
    ensures Lookup(map["subject_kind" := Text(kind)], field) == if field == "subject_kind" then Some(Text(kind)) else None
  {
  }

  lemma SubjectSays(db: Store, e: Event, field: string, v: Value)
    ensures Lookup(SubjectOf(db, e), field) == Some(v) <==> SubjectHas(db, e, field, v)
  {
    hide DocumentHas, UserHas, DocumentFacts, AssigneeFacts, VersionFacts, UserFacts, Lookup;
    var kind := map["subject_kind" := Text(e.subjectKind)];
    KindSays(e.subjectKind, field);
    KindsApart();
    NamesApart(field);
    FoundOrNot(db, e);
    if e.subjectKind == "document" && e.subject in db.documents {
      DocumentSays(db, db.documents[e.subject], kind, field, v);
    } else if e.subjectKind == "user" && e.subject in db.users {
      var u := db.users[e.subject];
      UserSays(u, field, v);
      Overlaid(kind, UserFacts(u), field);
      NamesAreUsers(u, field, v);
    }
  }

  lemma KindsApart()
    ensures "document" != "user"
  {
    assert |"document"| != |"user"|;
  }

  lemma NamesAreUsers(u: User, field: string, v: Value)
    ensures UserHas(u, field, v) ==> field in ACCOUNT
  {
  }

  lemma FoundOrNot(db: Store, e: Event)
    ensures Lookup(db.documents, e.subject) == if e.subject in db.documents then Some(db.documents[e.subject]) else None
    ensures Lookup(db.users, e.subject) == if e.subject in db.users then Some(db.users[e.subject]) else None
  {
  }

  lemma DocumentSays(db: Store, d: Document, kind: map<string, Value>, field: string, v: Value)
    requires Lookup(kind, field).Some? ==> field == "subject_kind"
    ensures var plain := kind + DocumentFacts(d);
            var given := d.assignedTo != 0 && d.assignedTo in db.users;
            var edited := d.currentVersion != 0 && d.currentVersion in db.versions;
            var some := if given then plain + AssigneeFacts(db.users[d.assignedTo]) else plain;
            var all := if edited then some + VersionFacts(db.versions[d.currentVersion]) else some;
            Lookup(all, field) == Some(v) <==> Lookup(kind, field) == Some(v) || DocumentHas(db, d, field, v)
  {
    hide DocumentFacts, AssigneeFacts, VersionFacts, PlainHas, AssigneeHas, VersionHas, Lookup, PLAIN, ASSIGNEE, EDITION;
    var plain := kind + DocumentFacts(d);
    var given := d.assignedTo != 0 && d.assignedTo in db.users;
    var some := if given then plain + AssigneeFacts(db.users[d.assignedTo]) else plain;
    NamesApart(field);
    PlainSays(d, field, v);
    Overlaid(kind, DocumentFacts(d), field);
    if given {
      AssigneeSays(db.users[d.assignedTo], field, v);
      Overlaid(plain, AssigneeFacts(db.users[d.assignedTo]), field);
    }
    if d.currentVersion != 0 && d.currentVersion in db.versions {
      VersionSays(db.versions[d.currentVersion], field, v);
      Overlaid(some, VersionFacts(db.versions[d.currentVersion]), field);
    }
    LookedUp(DocumentFacts(d), field);
    LookedUp(if given then AssigneeFacts(db.users[d.assignedTo]) else map[], field);
    LookedUp(if d.currentVersion != 0 && d.currentVersion in db.versions
             then VersionFacts(db.versions[d.currentVersion]) else map[], field);
  }

  lemma LookedUp<K, V>(m: map<K, V>, k: K)
    ensures k in m <==> Lookup(m, k).Some?
  {
  }

  /** What a condition's field resolves to is what the event carries for it. */
  lemma FieldIsCarried(db: Store, e: Event, field: string, v: Value)
    ensures FieldOf(FactsOf(db, e), field) == Some(v) <==> Carries(db, e, field, v)
  {
    hide SubjectOf, SubjectHas, ActorFacts, ActorHas;
    SubjectSays(db, e, field, v);
    if Acted(db, e) { ActorSays(db.users[e.actor], field, v); }
  }

  /** The condition names a field the event carries, and holds of its value. */
  ghost predicate Met(sem: Semantics, db: Store, e: Event, c: Condition) {
    exists v :: Carries(db, e, c.field, v) && sem.compare(v, c)
  }

  /** The rule is of the event's type, and every condition of it is met. */
  ghost predicate Applies(sem: Semantics, db: Store, r: Rule, e: Event) {
    r.eventType == e.eventType && forall k :: 0 <= k < |r.conditions| ==> Met(sem, db, e, r.conditions[k])
  }

  lemma ConditionMeans(sem: Semantics, db: Store, e: Event, c: Condition)
    ensures ConditionHolds(sem, c, FactsOf(db, e)) <==> Met(sem, db, e, c)
  {
    hide Carries, FactsOf, FieldOf;
    var found := FieldOf(FactsOf(db, e), c.field);
    if found.Some? { FieldIsCarried(db, e, c.field, found.value); }
    if exists v :: Carries(db, e, c.field, v) && sem.compare(v, c) {
      var v :| Carries(db, e, c.field, v) && sem.compare(v, c);
      FieldIsCarried(db, e, c.field, v);
    }
  }

  /** A rule of the event's type fires exactly when it applies. */
  lemma MatchesMeans(sem: Semantics, db: Store, r: Rule, e: Event)
    requires r.eventType == e.eventType
    ensures RuleMatches(sem, r, FactsOf(db, e)) <==> Applies(sem, db, r, e)
  {
    hide Met, FactsOf, ConditionHolds;
    forall k | 0 <= k < |r.conditions|
      ensures ConditionHolds(sem, r.conditions[k], FactsOf(db, e)) <==> Met(sem, db, e, r.conditions[k])
    {
      ConditionMeans(sem, db, e, r.conditions[k]);
    }
  }

  // ---------------------------------------------------------------------
  // Whom a rule tells
  // ---------------------------------------------------------------------

  lemma {:induction false} ColonAt(kind: string, name: string)
    requires ':' !in kind
    ensures Colon(kind + ":" + name) == |kind|
    decreases |kind|
  {
    var s := kind + ":" + name;
    if kind != "" {
      assert s[1..] == kind[1..] + ":" + name;
      assert kind[0] in kind;
      ColonAt(kind[1..], name);
    }
  }

  lemma {:induction false} NoColon(s: string)
    requires ':' !in s
    ensures Colon(s) == |s|
    decreases |s|
  {
    if s != "" {
      assert s[0] in s;
      NoColon(s[1..]);
    }
  }

  /** A target without a colon names nobody. */
  lemma NobodyNamed(sem: Semantics, db: Store, r: Rule)
    requires ':' !in r.target
    ensures RecipientsOf(sem, db, r) == []
  {
    NoColon(r.target);
  }

  /** The kind of a target is what stands before its first colon, and the name, trimmed,
      what follows: a user by uid, every holder of a role in order, or an address, and
      that only for e-mail. Anything else names nobody. */
  lemma RecipientsExactly(sem: Semantics, db: Store, r: Rule, kind: string, rest: string)
    requires r.target == kind + ":" + rest && ':' !in kind
    ensures var name, whos := sem.trim(rest), RecipientsOf(sem, db, r);
            && (name == "" ==> whos == [])
            && (kind == "user" && name != "" ==>
                  whos == if name in db.usersByUID
                          then [Recipient(Some(db.usersByUID[name]), db.usersByUID[name].email)] else [])
            && (kind == "role" && name != "" ==>
                  && |whos| == (if name in db.roles then |db.roles[name]| else 0)
                  && forall k :: 0 <= k < |whos| ==> whos[k] == Recipient(Some(db.roles[name][k]), db.roles[name][k].email))
            && (kind == "email" && name != "" ==>
                  whos == if r.channel == EMAIL && sem.validEmail(name) then [Recipient(None, name)] else [])
            && (kind != "user" && kind != "role" && kind != "email" ==> whos == [])
  {
    hide Colon, ParseTarget;
    KindsOfTarget();
    TargetIs(sem, r.target, r.channel, kind, rest);
  }

  lemma KindsOfTarget()
    ensures "user" != "role" && "user" != "email" && "role" != "email"
  {
    assert "user"[0] != "role"[0] && |"user"| != |"email"| && |"role"| != |"email"|;
  }

  lemma TargetIs(sem: Semantics, target: string, channel: string, kind: string, rest: string)
    requires target == kind + ":" + rest && ':' !in kind
    ensures var name := sem.trim(rest);
            ParseTarget(sem, target, channel) ==
              if name == "" then None
              else if kind == "user" then Some(UserTarget(name))
              else if kind == "role" then Some(RoleTarget(name))
              else if kind == "email" && channel == EMAIL && sem.validEmail(name) then Some(EmailTarget(name))
              else None
  {
    hide Colon;
    ColonAt(kind, rest);
    assert target[..|kind|] == kind && target[|kind| + 1..] == rest;
  }

  // ---------------------------------------------------------------------
  // What an event's output is
  // ---------------------------------------------------------------------

  /** The notes of the in-app rules that apply, rule by rule and recipient by recipient. */
  ghost function Notices(sem: Semantics, db: Store, rules: seq<Rule>, e: Event): seq<Note> {
    if rules == [] then []
    else
      var init, r := rules[..|rules| - 1], rules[|rules| - 1];
      Notices(sem, db, init, e) +
      if Applies(sem, db, r, e) && r.channel == IN_APP then NotesTo(r, e, RecipientsOf(sem, db, r)) else []
  }

  /** The mails of the other rules that apply. */
  ghost function Mailings(sem: Semantics, db: Store, rules: seq<Rule>, e: Event): seq<Delivery> {
    if rules == [] then []
    else
      var init, r := rules[..|rules| - 1], rules[|rules| - 1];
      Mailings(sem, db, init, e) +
      if Applies(sem, db, r, e) && r.channel != IN_APP then MailsTo(r, e, RecipientsOf(sem, db, r)) else []
  }

  function NotesTo(r: Rule, e: Event, whos: seq<Recipient>): (notes: seq<Note>)
    ensures |notes| == |whos|
    ensures forall k :: 0 <= k < |notes| ==>
              notes[k] == Note(if whos[k].user.Some? then whos[k].user.value.id else 0, e.id, r.id)
  {
    seq(|whos|, k requires 0 <= k < |whos| =>
      Note(if whos[k].user.Some? then whos[k].user.value.id else 0, e.id, r.id))
  }

  function MailsTo(r: Rule, e: Event, whos: seq<Recipient>): (mails: seq<Delivery>)
    ensures |mails| == |whos| && forall k :: 0 <= k < |mails| ==> mails[k] == Delivery(r, e, whos[k])
  {
    seq(|whos|, k requires 0 <= k < |whos| => Delivery(r, e, whos[k]))
  }

  lemma {:induction false} TellAllIs(r: Rule, e: Event, whos: seq<Recipient>)
    ensures TellAll(r, e, whos).notes == if r.channel == IN_APP then NotesTo(r, e, whos) else []
    ensures TellAll(r, e, whos).deliveries == if r.channel == IN_APP then [] else MailsTo(r, e, whos)
    decreases |whos|
  {
    hide *;
    if whos == [] {
      NobodyTold(r, e);
    } else {
      var init, who := whos[..|whos| - 1], whos[|whos| - 1];
      TellAllIs(r, e, init);
      assert whos == init + [who];
      OneMoreTold(r, e, init, who);
      OneMoreTell(r, e, init, who);
    }
  }

  lemma NobodyTold(r: Rule, e: Event)
    ensures TellAll(r, e, []) == Output([], []) && NotesTo(r, e, []) == [] && MailsTo(r, e, []) == []
  {
  }

  lemma OneMoreTell(r: Rule, e: Event, whos: seq<Recipient>, who: Recipient)
    ensures TellAll(r, e, whos + [who]).notes
         == if r.channel == IN_APP
            then TellAll(r, e, whos).notes + [Note(if who.user.Some? then who.user.value.id else 0, e.id, r.id)]
            else TellAll(r, e, whos).notes
    ensures TellAll(r, e, whos + [who]).deliveries
         == if r.channel == IN_APP then TellAll(r, e, whos).deliveries
            else TellAll(r, e, whos).deliveries + [Delivery(r, e, who)]
  {
    hide IN_APP;
    assert (whos + [who])[..|whos|] == whos;
    var said := TellAll(r, e, whos);
    assert said.notes + [] == said.notes && said.deliveries + [] == said.deliveries;
  }

  lemma OneMoreTold(r: Rule, e: Event, whos: seq<Recipient>, who: Recipient)
    ensures NotesTo(r, e, whos + [who])
         == NotesTo(r, e, whos) + [Note(if who.user.Some? then who.user.value.id else 0, e.id, r.id)]
    ensures MailsTo(r, e, whos + [who]) == MailsTo(r, e, whos) + [Delivery(r, e, who)]
  {
    hide NotesTo, MailsTo;
  }

  /** An event's output is the notices and the mailings of the rules that apply to it. */
  lemma {:induction false} EventSays(sem: Semantics, db: Store, rules: seq<Rule>, e: Event)
    ensures EventOutput(sem, db, rules, e) == Output(Notices(sem, db, rules, e), Mailings(sem, db, rules, e))
    decreases |rules|
  {
    hide Applies, RuleMatches, FactsOf, RecipientsOf, TellAll, NotesTo, MailsTo;
    if rules != [] {
      var init, r := rules[..|rules| - 1], rules[|rules| - 1];
      EventSays(sem, db, init, e);
      RuleSays(sem, db, r, e);
      assert Notices(sem, db, init, e) + [] == Notices(sem, db, init, e);
      assert Mailings(sem, db, init, e) + [] == Mailings(sem, db, init, e);
    }
  }

  lemma RuleSays(sem: Semantics, db: Store, r: Rule, e: Event)
    ensures var out := if r.eventType == e.eventType then Fire(sem, db, r, e) else NOTHING;
            var whos := RecipientsOf(sem, db, r);
            if !Applies(sem, db, r, e) then out == NOTHING
            else if r.channel == IN_APP then out == Output(NotesTo(r, e, whos), [])
            else out == Output([], MailsTo(r, e, whos))
  {
    hide RuleMatches, FactsOf, RecipientsOf, TellAll, NotesTo, MailsTo, Carries;
    if r.eventType == e.eventType { MatchesMeans(sem, db, r, e); }
    TellAllIs(r, e, RecipientsOf(sem, db, r));
  }

  /** An event is noted for exactly the recipients of the in-app rules that apply to it. */
  lemma {:induction false} NotedExactly(sem: Semantics, db: Store, rules: seq<Rule>, e: Event, n: Note)
    ensures n in EventOutput(sem, db, rules, e).notes <==>
            exists r, who :: && r in rules && Applies(sem, db, r, e) && r.channel == IN_APP
                             && who in RecipientsOf(sem, db, r)
                             && n == Note(if who.user.Some? then who.user.value.id else 0, e.id, r.id)
    decreases |rules|
  {
    EventSays(sem, db, rules, e);
    hide Applies, RecipientsOf, EventOutput;
    if rules != [] {
      var init, r := rules[..|rules| - 1], rules[|rules| - 1];
      assert rules == init + [r];
      NotedExactly(sem, db, init, e, n);
      EventSays(sem, db, init, e);
      var whos := RecipientsOf(sem, db, r);
      var notes := NotesTo(r, e, whos);
      if n in notes {
        var k :| 0 <= k < |notes| && notes[k] == n;
        assert whos[k] in whos;
      }
      if exists who :: who in whos && n == Note(if who.user.Some? then who.user.value.id else 0, e.id, r.id) {
        var who :| who in whos && n == Note(if who.user.Some? then who.user.value.id else 0, e.id, r.id);
        var k :| 0 <= k < |whos| && whos[k] == who;
        assert notes[k] == n;
      }
    }
  }

  /** And mailed to exactly the recipients of the other rules that apply. */
  lemma {:induction false} MailedExactly(sem: Semantics, db: Store, rules: seq<Rule>, e: Event, d: Delivery)
    ensures d in EventOutput(sem, db, rules, e).deliveries <==>
            && d.rule in rules && Applies(sem, db, d.rule, e) && d.rule.channel != IN_APP
            && d.event == e && d.recipient in RecipientsOf(sem, db, d.rule)
    decreases |rules|
  {
    EventSays(sem, db, rules, e);
    hide Applies, RecipientsOf, EventOutput;
    if rules != [] {
      var init, r := rules[..|rules| - 1], rules[|rules| - 1];
      assert rules == init + [r];
      MailedExactly(sem, db, init, e, d);
      EventSays(sem, db, init, e);
      var whos := RecipientsOf(sem, db, r);
      var mails := MailsTo(r, e, whos);
      if d in mails {
        var k :| 0 <= k < |mails| && mails[k] == d;
        assert whos[k] in whos;
      }
      if d.rule == r && d.event == e && d.recipient in whos {
        var k :| 0 <= k < |whos| && whos[k] == d.recipient;
        assert mails[k] == d;
      }
    }
  }

  /** One output for each event, and the batch's output is theirs end to end. */
  function PerEvent(sem: Semantics, db: Store, rules: seq<Rule>, events: seq<Event>): (outs: seq<Output>)
    ensures |outs| == |events| && forall k :: 0 <= k < |outs| ==> outs[k] == EventOutput(sem, db, rules, events[k])
  {
    seq(|events|, k requires 0 <= k < |events| => EventOutput(sem, db, rules, events[k]))
  }

  function Joined(outs: seq<Output>): Output {
    if outs == [] then NOTHING else Both(Joined(outs[..|outs| - 1]), outs[|outs| - 1])
  }

  lemma {:induction false} EvaluationIsPerEvent(sem: Semantics, db: Store, rules: seq<Rule>, events: seq<Event>)
    ensures Evaluation(sem, db, rules, events) == Joined(PerEvent(sem, db, rules, events))
    decreases |events|
  {
    hide EventOutput;
    if events != [] {
      var n := |events| - 1;
      EvaluationIsPerEvent(sem, db, rules, events[..n]);
      assert PerEvent(sem, db, rules, events)[..n] == PerEvent(sem, db, rules, events[..n]);
    }
  }
}
