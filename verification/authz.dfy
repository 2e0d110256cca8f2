/** The access scale. */
module Privileges {
  type Privilege = p: int | 0 <= p < 256

  const NoPrivilege: Privilege := 0
  const Read: Privilege := 1
  const Edit: Privilege := 2
  const Recall: Privilege := 3
  const Create: Privilege := 4
  const Publish: Privilege := 5
  const Deny: Privilege := 255

  /** A level a grant may carry. */
  predicate Valid(p: Privilege) {
    p in {Read, Edit, Recall, Create, Publish, Deny}
  }

  /** Whether an effective privilege of p permits an operation needing want. */
  predicate Permits(p: Privilege, want: Privilege) {
    p != Deny && p >= want
  }
}

/** Grant scopes, the subjects they match, and the privilege they confer. */
module Authz {
  import opened Wrappers
  import opened Privileges

  /** A set of constraints; None is a wildcard. */
  datatype Scope = Scope(
    site: Option<int>, docKind: Option<string>,
    categoryID: Option<int>, categoryPath: Option<string>, deep: bool,
    workflow: Option<int>, state: Option<string>,
    collection: Option<int>, document: Option<int>)

  datatype Subject = Subject(
    site: int, docKind: string, categoryPath: string,
    workflow: int, state: string, collection: int, document: int)

  datatype Grant = Grant(role: int, privilege: Privilege, scope: Scope)

  /** Scope.Validate. */
  predicate ValidScope(s: Scope) {
    && (s.categoryID.Some? ==> s.categoryPath.Some? && EndsInSlash(s.categoryPath.value))
    && (s.categoryPath.Some? ==> s.categoryID.Some?)
    && (s.docKind.Some? ==> s.docKind.value != "")
    && (s.state.Some? ==> s.state.value != "")
  }

  predicate EndsInSlash(p: string) {
    p != "" && p[|p| - 1] == '/'
  }

  // ---------------------------------------------------------------------
  // Matching, containment, intersection
  // ---------------------------------------------------------------------

  predicate Satisfied<T(==)>(want: Option<T>, have: T) {
    want.None? || want.value == have
  }

  predicate CategoryMatches(scopePath: string, deep: bool, subjectPath: string) {
    if subjectPath == "" then false
    else if scopePath == subjectPath then true
    else deep && scopePath <= subjectPath
  }

  predicate Matches(s: Scope, subj: Subject) {
    && Satisfied(s.site, subj.site)
    && Satisfied(s.docKind, subj.docKind)
    && Satisfied(s.workflow, subj.workflow)
    && Satisfied(s.state, subj.state)
    && Satisfied(s.collection, subj.collection)
    && Satisfied(s.document, subj.document)
    && (s.categoryPath.Some? ==> CategoryMatches(s.categoryPath.value, s.deep, subj.categoryPath))
  }

  /** A scope leaves a subject out for a constraint that the subject does not meet, and
      for nothing else. */
  lemma LeftOutExactly(s: Scope, subj: Subject)
    ensures !Matches(s, subj) <==>
            || (s.site.Some? && s.site.value != subj.site)
            || (s.docKind.Some? && s.docKind.value != subj.docKind)
            || (s.workflow.Some? && s.workflow.value != subj.workflow)
            || (s.state.Some? && s.state.value != subj.state)
            || (s.collection.Some? && s.collection.value != subj.collection)
            || (s.document.Some? && s.document.value != subj.document)
            || (s.categoryPath.Some? &&
                  !(subj.categoryPath != "" &&
                    (s.categoryPath.value == subj.categoryPath ||
                     (s.deep && s.categoryPath.value <= subj.categoryPath))))
  {
  }

  predicate CoversDim<T(==)>(outer: Option<T>, inner: Option<T>) {
    outer.None? || (inner.Some? && outer.value == inner.value)
  }

  predicate CoversCategory(outer: Scope, inner: Scope) {
    outer.categoryPath.Some? ==>
      && inner.categoryPath.Some?
      && CategoryMatches(outer.categoryPath.value, outer.deep, inner.categoryPath.value)
      && !(inner.deep && !outer.deep)
  }

  predicate Covers(outer: Scope, inner: Scope) {
    && CoversDim(outer.site, inner.site)
    && CoversDim(outer.docKind, inner.docKind)
    && CoversDim(outer.workflow, inner.workflow)
    && CoversDim(outer.state, inner.state)
    && CoversDim(outer.collection, inner.collection)
    && CoversDim(outer.document, inner.document)
    && CoversCategory(outer, inner)
  }

  predicate Conflicts<T(==)>(a: Option<T>, b: Option<T>) {
    a.Some? && b.Some? && a.value != b.value
  }

  predicate CategoriesMeet(a: Scope, b: Scope) {
    a.categoryPath.Some? && b.categoryPath.Some? ==>
      || CategoryMatches(a.categoryPath.value, a.deep, b.categoryPath.value)
      || CategoryMatches(b.categoryPath.value, b.deep, a.categoryPath.value)
  }

  predicate Intersects(a: Scope, b: Scope) {
    && !Conflicts(a.site, b.site)
    && !Conflicts(a.docKind, b.docKind)
    && !Conflicts(a.workflow, b.workflow)
    && !Conflicts(a.state, b.state)
    && !Conflicts(a.collection, b.collection)
    && !Conflicts(a.document, b.document)
    && CategoriesMeet(a, b)
  }

  // ---------------------------------------------------------------------
  // The scope algebra is exact
  // ---------------------------------------------------------------------

  function Or<T>(o: Option<T>, default: T): T {
    if o.Some? then o.value else default
  }

  /** The subject that takes every constraint of s at its word and the defaults elsewhere. */
  function Instance(s: Scope, n: int, str: string, path: string): Subject {
    Subject(Or(s.site, n), Or(s.docKind, str), path, Or(s.workflow, n), Or(s.state, str),
            Or(s.collection, n), Or(s.document, n))
  }

  /** One more than every integer a scope names. */
  function IntCeiling(s: Scope): (n: int)
    ensures forall v :: v in [s.site, s.workflow, s.collection, s.document] && v.Some? ==> v.value < n
  {
    1 + Max(Max(Or(s.site, 0), Or(s.workflow, 0)), Max(Or(s.collection, 0), Or(s.document, 0)))
  }

  /** Longer than every string a scope names. */
  function LengthCeiling(s: Scope): (n: nat)
    ensures forall v :: v in [s.docKind, s.state, s.categoryPath] && v.Some? ==> |v.value| < n
  {
    1 + |Or(s.docKind, "")| + |Or(s.state, "")| + |Or(s.categoryPath, "")|
  }

  function Max(a: int, b: int): int {
    if a >= b then a else b
  }

  function Filler(n: nat): (s: string)
    ensures |s| == n && forall k :: 0 <= k < n ==> s[k] == 'x'
  {
    seq(n, _ => 'x')
  }

  /** A category path the scope reaches that says as little more than the scope does as it can. */
  function PathIn(s: Scope, len: nat): string {
    if s.categoryPath.None? then ""
    else if s.deep then s.categoryPath.value + Filler(len) + "/"
    else s.categoryPath.value
  }

  lemma PathInMatches(s: Scope, len: nat)
    requires ValidScope(s)
    ensures s.categoryPath.Some? ==> CategoryMatches(s.categoryPath.value, s.deep, PathIn(s, len))
  {
    if s.categoryPath.Some? && s.deep {
      assert PathIn(s, len)[..|s.categoryPath.value|] == s.categoryPath.value;
    }
  }

  /** A subject of s that a second scope matches only by covering s altogether. */
  function Typical(s: Scope, n: int, len: nat): Subject {
    Instance(s, n, Filler(len), PathIn(s, len))
  }

  lemma TypicalIsTelling(g: Scope, s: Scope, n: int, len: nat)
    requires ValidScope(g) && ValidScope(s)
    requires n >= IntCeiling(g) && len >= LengthCeiling(g)
    ensures Matches(s, Typical(s, n, len))
    ensures Matches(g, Typical(s, n, len)) ==> Covers(g, s)
  {
    PathInMatches(s, len);
    var subj := Typical(s, n, len);
    if Matches(g, subj) {
      TypicalPath(g, s, len);
      assert g.site in [g.site, g.workflow, g.collection, g.document];
      assert g.workflow in [g.site, g.workflow, g.collection, g.document];
      assert g.collection in [g.site, g.workflow, g.collection, g.document];
      assert g.document in [g.site, g.workflow, g.collection, g.document];
      assert g.docKind in [g.docKind, g.state, g.categoryPath];
      assert g.state in [g.docKind, g.state, g.categoryPath];
    }
  }

  lemma NoSlashInFiller(q: string, len: nat)
    ensures forall k :: |q| <= k < |q| + len ==> (q + Filler(len) + "/")[k] != '/'
  {
  }

  lemma TypicalPath(g: Scope, s: Scope, len: nat)
    requires ValidScope(g) && ValidScope(s) && len >= LengthCeiling(g)
    requires g.categoryPath.Some? ==> CategoryMatches(g.categoryPath.value, g.deep, PathIn(s, len))
    ensures CoversCategory(g, s)
  {
    if g.categoryPath.Some? && s.categoryPath.Some? && s.deep {
      var p, q, t := g.categoryPath.value, s.categoryPath.value, PathIn(s, len);
      assert g.categoryPath in [g.docKind, g.state, g.categoryPath];
      assert p <= t;
      NoSlashInFiller(q, len);
      assert p == t[..|p|] == q[..|p|];
    }
  }

  /** Covers is containment of what the scopes match. */
  lemma CoversExact(outer: Scope, inner: Scope)
    requires ValidScope(outer) && ValidScope(inner)
    ensures Covers(outer, inner) <==> forall subj :: Matches(inner, subj) ==> Matches(outer, subj)
  {
    if Covers(outer, inner) {
      forall subj | Matches(inner, subj) ensures Matches(outer, subj) {
      }
    } else {
      TypicalIsTelling(outer, inner, IntCeiling(outer), LengthCeiling(outer));
    }
  }

  /** Intersects is having a subject in common. */
  lemma IntersectsExact(a: Scope, b: Scope)
    requires ValidScope(a) && ValidScope(b)
    ensures Intersects(a, b) <==> exists subj :: Matches(a, subj) && Matches(b, subj)
  {
    if Intersects(a, b) {
      var subj := Meeting(a, b);
      assert Matches(a, subj) && Matches(b, subj);
    }
    forall subj | Matches(a, subj) && Matches(b, subj) ensures Intersects(a, b) {
      if a.categoryPath.Some? && b.categoryPath.Some? {
        PrefixesNest(a.categoryPath.value, b.categoryPath.value, subj.categoryPath);
      }
    }
  }

  /** A subject inside both of two intersecting scopes. */
  function Meeting(a: Scope, b: Scope): Subject {
    Subject(
      Or(a.site, Or(b.site, 0)), Or(a.docKind, Or(b.docKind, "")),
      if a.categoryPath.None? then Or(b.categoryPath, "")
      else if b.categoryPath.None? then a.categoryPath.value
      else if CategoryMatches(a.categoryPath.value, a.deep, b.categoryPath.value) then b.categoryPath.value
      else a.categoryPath.value,
      Or(a.workflow, Or(b.workflow, 0)), Or(a.state, Or(b.state, "")),
      Or(a.collection, Or(b.collection, 0)), Or(a.document, Or(b.document, 0)))
  }

  lemma PrefixesNest(p: string, q: string, t: string)
    requires p <= t && q <= t
    ensures p <= q || q <= p
    ensures |p| == |q| ==> p == q
  {
    assert p == t[..|p|] && q == t[..|q|];
  }

  // ---------------------------------------------------------------------
  // Resolution
  // ---------------------------------------------------------------------

  /** The greatest privilege among the grants whose scope matches. */
  function ResolveOf(grants: seq<Grant>, subj: Subject): Privilege {
    if grants == [] then NoPrivilege
    else
      var g, rest := grants[|grants| - 1], ResolveOf(grants[..|grants| - 1], subj);
      if Matches(g.scope, subj) && g.privilege > rest then g.privilege else rest
  }

  /** Whether the grants permit an operation needing want over subj. */
  predicate Allows(grants: seq<Grant>, subj: Subject, want: Privilege) {
    Permits(ResolveOf(grants, subj), want)
  }

  /** Maximum over the matching grants, and nothing when none match. */
  lemma {:induction false} ResolveIsMax(grants: seq<Grant>, subj: Subject)
    ensures forall g :: g in grants && Matches(g.scope, subj) ==> g.privilege <= ResolveOf(grants, subj)
    ensures ResolveOf(grants, subj) != NoPrivilege ==>
              exists g :: g in grants && Matches(g.scope, subj) && g.privilege == ResolveOf(grants, subj)
    decreases |grants|
  {
    if grants != [] {
      var n := |grants| - 1;
      ResolveIsMax(grants[..n], subj);
      assert grants == grants[..n] + [grants[n]];
      if Matches(grants[n].scope, subj) && grants[n].privilege > ResolveOf(grants[..n], subj) {
        assert grants[n] in grants;
      }
    }
  }

  /** A level is permitted exactly where some grant gives it and no grant denies. */
  lemma {:induction false} AllowsMeans(grants: seq<Grant>, subj: Subject, want: Privilege)
    requires want > NoPrivilege
    ensures Allows(grants, subj, want) <==>
              && (exists g :: g in grants && Matches(g.scope, subj) && g.privilege >= want)
              && (forall g :: g in grants && Matches(g.scope, subj) ==> g.privilege != Deny)
  {
    ResolveIsMax(grants, subj);
  }

  /** The effective privilege the grants confer over subj. */
  method Resolve(grants: seq<Grant>, subj: Subject) returns (effective: Privilege)
    ensures effective == ResolveOf(grants, subj)
  {
    effective := NoPrivilege;
    for k := 0 to |grants|
      invariant effective == ResolveOf(grants[..k], subj)
    {
      var g := grants[k];
      assert grants[..k + 1][..k] == grants[..k];
      if !Matches(g.scope, subj) {
        continue;
      }
      if g.privilege > effective {
        effective := g.privilege;
      }
    }
    assert grants[..|grants|] == grants;
  }

  // ---------------------------------------------------------------------
  // Delegation
  // ---------------------------------------------------------------------

  predicate Vetoed(held: seq<Grant>, s: Scope) {
    exists g :: g in held && g.privilege == Deny && Intersects(g.scope, s)
  }

  /** The greatest non-Deny privilege among the grants whose scope covers s. */
  function BestCovering(held: seq<Grant>, s: Scope): Privilege {
    if held == [] then NoPrivilege
    else
      var g, rest := held[|held| - 1], BestCovering(held[..|held| - 1], s);
      if g.privilege != Deny && Covers(g.scope, s) && g.privilege > rest then g.privilege else rest
  }

  function DelegableOf(held: seq<Grant>, s: Scope): Privilege {
    if Vetoed(held, s) then NoPrivilege else BestCovering(held, s)
  }

  /** The highest privilege an actor holding these grants may confer over the whole of s. */
  method Delegable(held: seq<Grant>, s: Scope) returns (best: Privilege)
    ensures best == DelegableOf(held, s)
  {
    best := NoPrivilege;
    for k := 0 to |held|
      invariant best == BestCovering(held[..k], s)
      invariant forall j :: 0 <= j < k ==> !(held[j].privilege == Deny && Intersects(held[j].scope, s))
    {
      var g := held[k];
      assert held[..k + 1][..k] == held[..k];
      if g.privilege == Deny {
        if Intersects(g.scope, s) {
          assert g in held;
          return NoPrivilege;
        }
        continue;
      }
      if !Covers(g.scope, s) {
        continue;
      }
      if g.privilege > best {
        best := g.privilege;
      }
    }
    assert held[..|held|] == held;
  }

  datatype Verdict = Granted | NotOnScale | Escalation

  /** What writing a grant of p asks of the writer: p itself, or Publish for a veto. */
  function Needed(p: Privilege): Privilege {
    if p == Deny then Publish else p
  }

  /** Whether an actor holding these grants may create a grant of p over s. */
  function CanGrant(held: seq<Grant>, s: Scope, p: Privilege): Verdict {
    if !Valid(p) then NotOnScale
    else if Permits(DelegableOf(held, s), Needed(p)) then Granted
    else Escalation
  }

  ghost predicate ValidGrants(held: seq<Grant>) {
    forall g :: g in held ==> ValidScope(g.scope)
  }

  lemma {:induction false} BestCoveringIsMax(held: seq<Grant>, s: Scope)
    ensures BestCovering(held, s) != Deny
    ensures forall g :: g in held && g.privilege != Deny && Covers(g.scope, s) ==> g.privilege <= BestCovering(held, s)
    ensures BestCovering(held, s) != NoPrivilege ==>
              exists g :: g in held && Covers(g.scope, s) && g.privilege == BestCovering(held, s)
    decreases |held|
  {
    if held != [] {
      var n := |held| - 1;
      BestCoveringIsMax(held[..n], s);
      assert held == held[..n] + [held[n]];
      assert held[n] in held;
    }
  }

  function AllInts(held: seq<Grant>): (n: int)
    ensures forall g :: g in held ==> IntCeiling(g.scope) <= n
  {
    if held == [] then 0 else Max(IntCeiling(held[0].scope), AllInts(held[1..]))
  }

  function AllLengths(held: seq<Grant>): (n: nat)
    ensures forall g :: g in held ==> LengthCeiling(g.scope) <= n
  {
    if held == [] then 0 else LengthCeiling(held[0].scope) + AllLengths(held[1..])
  }

  /** An actor may hand out a level over a scope exactly when it is on the scale and the
      actor is allowed that level on every subject the scope matches; a veto, exactly
      when the actor is allowed to publish on every one of them. */
  lemma CanGrantExact(held: seq<Grant>, s: Scope, p: Privilege)
    requires ValidGrants(held) && ValidScope(s)
    ensures CanGrant(held, s, p) == NotOnScale <==> p !in {Read, Edit, Recall, Create, Publish, Deny}
    ensures p == Deny ==>
              (CanGrant(held, s, p) == Granted <==> forall subj :: Matches(s, subj) ==> Allows(held, subj, Publish))
    ensures p in {Read, Edit, Recall, Create, Publish} ==>
              (CanGrant(held, s, p) == Granted <==> forall subj :: Matches(s, subj) ==> Allows(held, subj, p))
  {
    if Valid(p) { GrantedExactly(held, s, p); }
  }

  lemma GrantedExactly(held: seq<Grant>, s: Scope, p: Privilege)
    requires ValidGrants(held) && ValidScope(s) && Valid(p)
    ensures CanGrant(held, s, p) == Granted <==>
              forall subj :: Matches(s, subj) ==> Allows(held, subj, Needed(p))
  {
    hide Covers, Intersects, Matches, ResolveOf, BestCovering;
    BestCoveringIsMax(held, s);
    if CanGrant(held, s, p) == Granted {
      forall subj | Matches(s, subj) ensures Allows(held, subj, Needed(p)) {
        CoveredIsAllowed(held, s, Needed(p), subj);
      }
    } else if Vetoed(held, s) {
      var g :| g in held && g.privilege == Deny && Intersects(g.scope, s);
      IntersectsExact(g.scope, s);
      var subj :| Matches(g.scope, subj) && Matches(s, subj);
      ResolveIsMax(held, subj);
      assert !Allows(held, subj, Needed(p));
    } else {
      var subj := Typical(s, AllInts(held), AllLengths(held));
      NotCoveredNotAllowed(held, s, Needed(p), subj);
    }
  }

  lemma CoveredIsAllowed(held: seq<Grant>, s: Scope, want: Privilege, subj: Subject)
    requires ValidGrants(held) && ValidScope(s) && want > NoPrivilege
    requires !Vetoed(held, s) && BestCovering(held, s) >= want && Matches(s, subj)
    ensures Allows(held, subj, want)
  {
    hide Covers, Intersects, Matches, ResolveOf, BestCovering;
    BestCoveringIsMax(held, s);
    var g :| g in held && Covers(g.scope, s) && g.privilege == BestCovering(held, s);
    CoversExact(g.scope, s);
    ResolveIsMax(held, subj);
    if ResolveOf(held, subj) == Deny {
      var d :| d in held && Matches(d.scope, subj) && d.privilege == Deny;
      IntersectsExact(d.scope, s);
    }
  }

  lemma NotCoveredNotAllowed(held: seq<Grant>, s: Scope, want: Privilege, subj: Subject)
    requires ValidGrants(held) && ValidScope(s) && want > NoPrivilege
    requires BestCovering(held, s) < want && subj == Typical(s, AllInts(held), AllLengths(held))
    ensures Matches(s, subj) && !Allows(held, subj, want)
  {
    hide Covers, Intersects, Matches, ResolveOf, BestCovering, Typical;
    BestCoveringIsMax(held, s);
    ResolveIsMax(held, subj);
    forall g | g in held && Matches(g.scope, subj) ensures Covers(g.scope, s) {
      TypicalIsTelling(g.scope, s, AllInts(held), AllLengths(held));
    }
    TypicalMatches(s, AllInts(held), AllLengths(held));
  }

  lemma TypicalMatches(s: Scope, n: int, len: nat)
    requires ValidScope(s)
    ensures Matches(s, Typical(s, n, len))
  {
    PathInMatches(s, len);
  }
}
