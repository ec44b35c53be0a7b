/**
  The conclusion ledger: assessments, the relations between them, and what the effective projection
  of a ledger means. `Projection.dfy` holds the algorithm, `LedgerTheorems.dfy` the theorems.
*/
module Ledger {
  import opened Wrappers
  import opened Ordering
  import opened Selection
  import opened TextOrder
  import opened Graph

  datatype Verdict =
    | ConfirmedMalicious
    | HighlySuspicious
    | Suspicious
    | Benign
    | NoObservedFinding
    | Inconclusive

  datatype Author = Rule | Model | System | Human

  datatype Scope = Subject | ObservedCategory

  /** A check category is a name without a colon, such as `webshell` or `linux_persistence`. */
  type Category = name: string | ':' !in name witness "webshell"

  /** A time stamp: its text, by which records are sorted, and what parsing the text yields. */
  datatype Stamp = Stamp(text: string, millis: Option<int>)

  datatype Assessment = Assessment(
    id: string,
    taskId: string,
    epochId: string,
    author: Author,
    category: Category,
    scope: Scope,
    subjectRef: Option<string>,
    verdict: Verdict,
    createdAt: Stamp)

  datatype RelationKind = Supports | Contradicts | Adjudicates | Supersedes

  datatype Relation = Relation(
    id: string,
    taskId: string,
    epochId: string,
    kind: RelationKind,
    from: string,
    to: string,
    createdAt: Stamp)

  datatype Conclusion = Conflict | Concluded(verdict: Verdict)

  datatype Projection = Projection(
    key: string,
    category: Category,
    scope: Scope,
    subjectRef: Option<string>,
    conclusion: Conclusion,
    effective: seq<string>,
    superseded: seq<string>,
    conflicts: seq<string>,
    ignored: seq<string>)

  function Authority(author: Author): nat {
    match author
    case Rule => 1
    case Model => 2
    case System => 3
    case Human => 4
  }

  predicate IsRisk(verdict: Verdict) {
    verdict.Suspicious? || verdict.HighlySuspicious? || verdict.ConfirmedMalicious?
  }

  predicate IsClearance(verdict: Verdict) {
    verdict.Benign? || verdict.NoObservedFinding?
  }

  function RiskRank(verdict: Verdict): nat {
    match verdict
    case Suspicious => 1
    case HighlySuspicious => 2
    case ConfirmedMalicious => 3
    case _ => 0
  }

  // ---- Projection keys ----

  function ScopeText(scope: Scope): string {
    match scope
    case Subject => "SUBJECT"
    case ObservedCategory => "OBSERVED_CATEGORY"
  }

  function SubjectText(subjectRef: Option<string>): string {
    match subjectRef
    case None => "OBSERVED_CATEGORY"
    case Some(ref) => ref
  }

  function KeyOf(a: Assessment): string {
    a.category + ("::" + (ScopeText(a.scope) + ("::" + SubjectText(a.subjectRef))))
  }

  predicate SameProjection(left: Assessment, right: Assessment) {
    KeyOf(left) == KeyOf(right) && left.taskId == right.taskId && left.epochId == right.epochId
  }

  lemma ColonComesFirst(t: string, x: string, y: string)
    requires ':' !in t && t != []
    ensures "::" + x != t + ("::" + y)
  {
    assert (t + ("::" + y))[0] == t[0];
  }

  lemma {:induction false} ColonSplitsUniquely(s: string, t: string, x: string, y: string)
    requires ':' !in s && ':' !in t && s + ("::" + x) == t + ("::" + y)
    ensures s == t && x == y
  {
    if s == [] {
      if t != [] {
        assert s + ("::" + x) == "::" + x;
        ColonComesFirst(t, x, y);
        assert false;
      }
      assert s + ("::" + x) == "::" + x && t + ("::" + y) == "::" + y;
      assert ("::" + x)[2..] == x && ("::" + y)[2..] == y;
    } else if t == [] {
      assert t + ("::" + y) == "::" + y;
      ColonComesFirst(s, y, x);
      assert false;
    } else {
      assert (s + ("::" + x))[0] == s[0] && (t + ("::" + y))[0] == t[0];
      assert (s + ("::" + x))[1..] == s[1..] + ("::" + x);
      assert (t + ("::" + y))[1..] == t[1..] + ("::" + y);
      ColonSplitsUniquely(s[1..], t[1..], x, y);
      assert s == [s[0]] + s[1..] && t == [t[0]] + t[1..];
    }
  }

  /** The textual key determines category, scope and subject text, so groups never mix categories. */
  lemma KeyIsInjective(a: Assessment, b: Assessment)
    requires KeyOf(a) == KeyOf(b)
    ensures a.category == b.category && a.scope == b.scope
    ensures SubjectText(a.subjectRef) == SubjectText(b.subjectRef)
  {
    var restA := ScopeText(a.scope) + ("::" + SubjectText(a.subjectRef));
    var restB := ScopeText(b.scope) + ("::" + SubjectText(b.subjectRef));
    ColonSplitsUniquely(a.category, b.category, restA, restB);
    ColonSplitsUniquely(ScopeText(a.scope), ScopeText(b.scope), SubjectText(a.subjectRef), SubjectText(b.subjectRef));
    assert |ScopeText(Subject)| == 7 && |ScopeText(ObservedCategory)| == 17;
  }

  // ---- Orders ----

  function ByStampThenId(aStamp: Stamp, aId: string, bStamp: Stamp, bId: string): bool {
    if aStamp.text != bStamp.text then TextLe(aStamp.text, bStamp.text) else TextLe(aId, bId)
  }

  predicate RelationLe(a: Relation, b: Relation) {
    ByStampThenId(a.createdAt, a.id, b.createdAt, b.id)
  }

  predicate AssessmentLe(a: Assessment, b: Assessment) {
    ByStampThenId(a.createdAt, a.id, b.createdAt, b.id)
  }

  predicate ProjectionLe(a: Projection, b: Projection) {
    TextLe(a.key, b.key)
  }

  lemma LedgerOrdersAreTotal()
    ensures TotalPreorder(RelationLe) && TotalPreorder(AssessmentLe) && TotalPreorder(ProjectionLe)
    ensures TotalPreorder(TextLe)
    ensures forall a, b: string :: TextLe(a, b) && TextLe(b, a) ==> a == b
  {
    TextLeIsTotalOrder();
  }

  // ---- Conclusions ----

  predicate FindsRisk(a: Assessment) {
    IsRisk(a.verdict)
  }

  predicate Clears(a: Assessment) {
    IsClearance(a.verdict)
  }

  function IdsOf(items: seq<Assessment>): (ids: seq<string>)
    ensures |ids| == |items|
    ensures forall i :: 0 <= i < |items| ==> ids[i] == items[i].id
  {
    seq(|items|, i requires 0 <= i < |items| => items[i].id)
  }

  /** The highest-ranked verdict, the earliest one on a tie. */
  function HighestRisk(risks: seq<Assessment>, best: Verdict): Verdict {
    if risks == [] then best
    else HighestRisk(risks[1..], if RiskRank(risks[0].verdict) > RiskRank(best) then risks[0].verdict else best)
  }

  function ResolveConclusion(active: seq<Assessment>): (Conclusion, seq<string>) {
    var risks := Keep(FindsRisk, active);
    var clearances := Keep(Clears, active);
    if |risks| > 0 && |clearances| > 0 then
      (Conflict, StableSort(TextLe, IdsOf(risks + clearances)))
    else if |risks| > 0 then
      (Concluded(HighestRisk(risks, risks[0].verdict)), [])
    else if exists i :: 0 <= i < |active| && active[i].verdict.Benign? then (Concluded(Benign), [])
    else if exists i :: 0 <= i < |active| && active[i].verdict.NoObservedFinding? then
            (Concluded(NoObservedFinding), [])
    else (Concluded(Inconclusive), [])
  }

  // ---- Which relations count ----

  /** The assessments by id; a later record with the same id would replace an earlier one. */
  function ById(assessments: seq<Assessment>): map<string, Assessment> {
    if assessments == [] then map[]
    else var last := assessments[|assessments| - 1]; ById(assessments[..|assessments| - 1])[last.id := last]
  }

  predicate IsReplacing(r: Relation) {
    r.kind.Adjudicates? || r.kind.Supersedes?
  }

  /** Everything the ledger checks about a replacing relation except whether it closes a cycle. */
  predicate PassesChecks(byId: map<string, Assessment>, r: Relation) {
    && r.from in byId && r.to in byId
    && var from, to := byId[r.from], byId[r.to];
    && from.id != to.id
    && SameProjection(from, to)
    && r.taskId == from.taskId && r.epochId == from.epochId
    && r.createdAt.millis.Some? && from.createdAt.millis.Some? && to.createdAt.millis.Some?
    && from.createdAt.millis.value >= to.createdAt.millis.value
    && r.createdAt.millis.value >= from.createdAt.millis.value
    && Authority(from.author) >= Authority(to.author)
  }

  ghost predicate Admits(byId: map<string, Assessment>, edges: Edges<string>, r: Relation) {
    PassesChecks(byId, r) && !Reaches(edges, r.to, r.from)
  }

  /** The replacement graph after the relations have been processed in the given order. */
  ghost function Accepted(byId: map<string, Assessment>, relations: seq<Relation>): Edges<string> {
    if relations == [] then {}
    else
      var last := relations[|relations| - 1];
      var edges := Accepted(byId, relations[..|relations| - 1]);
      if IsReplacing(last) && Admits(byId, edges, last) then edges + {(last.from, last.to)} else edges
  }

  /** Relation number `i` was looked at and refused. */
  ghost predicate Refused(byId: map<string, Assessment>, relations: seq<Relation>, i: nat)
    requires i < |relations|
  {
    IsReplacing(relations[i]) && !Admits(byId, Accepted(byId, relations[..i]), relations[i])
  }

  predicate Touches(byId: map<string, Assessment>, r: Relation, key: string) {
    (r.from in byId && KeyOf(byId[r.from]) == key) || (r.to in byId && KeyOf(byId[r.to]) == key)
  }

  function Lookup(table: map<string, seq<string>>, key: string): seq<string> {
    if key in table then table[key] else []
  }

  function AddOnce(ids: seq<string>, id: string): seq<string> {
    if id in ids then ids else ids + [id]
  }

  /** The refused relations reported under one key, in the order they were refused. */
  ghost function RefusedIds(byId: map<string, Assessment>, relations: seq<Relation>, key: string): seq<string> {
    if relations == [] then []
    else
      var n := |relations| - 1;
      var earlier := RefusedIds(byId, relations[..n], key);
      if Refused(byId, relations, n) && Touches(byId, relations[n], key) then AddOnce(earlier, relations[n].id)
         else earlier
  }

  ghost function Targets(edges: Edges<string>): set<string> {
    set e | e in edges :: e.1
  }

  // ---- Groups ----

  function GroupKeys(assessments: seq<Assessment>): seq<string> {
    if assessments == [] then []
    else AddOnce(GroupKeys(assessments[..|assessments| - 1]), KeyOf(assessments[|assessments| - 1]))
  }

  function InGroup(assessments: seq<Assessment>, key: string): seq<Assessment> {
    if assessments == [] then []
    else
      var last := assessments[|assessments| - 1];
      InGroup(assessments[..|assessments| - 1], key) + (if KeyOf(last) == key then [last] else [])
  }

  function Without(items: seq<Assessment>, ids: set<string>): seq<Assessment> {
    Keep((a: Assessment) => a.id !in ids, items)
  }

  function Within(items: seq<Assessment>, ids: set<string>): seq<Assessment> {
    Keep((a: Assessment) => a.id in ids, items)
  }

  /** The assessments of a group that stand, with the fallback for a group where none would. */
  function Effective(ordered: seq<Assessment>, superseded: set<string>): seq<Assessment>
    requires ordered != []
  {
    var active := Without(ordered, superseded);
    if |active| > 0 then active else [ordered[|ordered| - 1]]
  }

  function ProjectGroup(key: string, items: seq<Assessment>, superseded: set<string>, refused: seq<string>): Projection
    requires items != []
  {
    SortIsPermutation(AssessmentLe, items);
    var ordered := StableSort(AssessmentLe, items);
    var effective := Effective(ordered, superseded);
    var resolved := ResolveConclusion(effective);
    var first := ordered[0];
    Projection(
      key,
      first.category,
      first.scope,
      if first.subjectRef.Some? && first.subjectRef.value != "" then first.subjectRef else None,
      resolved.0,
      IdsOf(effective),
      IdsOf(Within(ordered, superseded)),
      resolved.1,
      StableSort(TextLe, refused))
  }

  /** What the projection of one group is, for a ledger of assessments and relations. */
  ghost function ProjectionOf(assessments: seq<Assessment>, relations: seq<Relation>, key: string): Projection
    requires InGroup(assessments, key) != []
  {
    var byId := ById(assessments);
    var sorted := StableSort(RelationLe, relations);
    ProjectGroup(key, InGroup(assessments, key), Targets(Accepted(byId, sorted)), RefusedIds(byId, sorted, key))
  }

  ghost function ProjectKeys(assessments: seq<Assessment>, relations: seq<Relation>, keys: seq<string>): seq<Projection>
    requires forall k :: k in keys ==> InGroup(assessments, k) != []
  {
    seq(|keys|, i requires 0 <= i < |keys| => ProjectionOf(assessments, relations, keys[i]))
  }

  lemma {:induction false} InGroupMembers(assessments: seq<Assessment>, key: string)
    ensures forall a :: a in InGroup(assessments, key) <==> a in assessments && KeyOf(a) == key
  {
    if assessments != [] {
      var front, last := assessments[..|assessments| - 1], assessments[|assessments| - 1];
      InGroupMembers(front, key);
      assert assessments == front + [last];
    }
  }

  lemma {:induction false} GroupKeysMembers(assessments: seq<Assessment>)
    ensures forall k :: k in GroupKeys(assessments) <==> exists a :: a in assessments && KeyOf(a) == k
    ensures forall i, j :: 0 <= i < j < |GroupKeys(assessments)| ==>
      GroupKeys(assessments)[i] != GroupKeys(assessments)[j]
  {
    if assessments != [] {
      var front, last := assessments[..|assessments| - 1], assessments[|assessments| - 1];
      GroupKeysMembers(front);
      assert assessments == front + [last];
      forall k
        ensures k in GroupKeys(assessments) <==> exists a :: a in assessments && KeyOf(a) == k
      {
        if k in GroupKeys(front) {
          var a :| a in front && KeyOf(a) == k;
          assert a in assessments;
        } else if k == KeyOf(last) {
          assert last in assessments;
        }
      }
    }
  }

  lemma GroupsAreInhabited(assessments: seq<Assessment>)
    ensures forall k :: k in GroupKeys(assessments) <==> InGroup(assessments, k) != []
  {
    GroupKeysMembers(assessments);
    forall k
      ensures k in GroupKeys(assessments) <==> InGroup(assessments, k) != []
    {
      InGroupMembers(assessments, k);
      if InGroup(assessments, k) != [] {
        assert InGroup(assessments, k)[0] in assessments;
      }
    }
  }

  /** The effective projections of a ledger, one per group, in key order. */
  ghost function EffectiveProjections(assessments: seq<Assessment>, relations: seq<Relation>): seq<Projection> {
    GroupsAreInhabited(assessments);
    StableSort(ProjectionLe, ProjectKeys(assessments, relations, GroupKeys(assessments)))
  }
}
