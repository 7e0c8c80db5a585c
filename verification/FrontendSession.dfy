/** The snapshot session shared by frontend clients: revisions, freshness, and
    the invalidation of importers when a source changes. */
module FrontendSession {
  import opened Wrappers

  type SourceId = nat

  const U64_MAX: nat := 0xFFFF_FFFF_FFFF_FFFF

  datatype Snapshot = Snapshot(source: SourceId, revision: nat, text: string)

  datatype Request = Request(source: SourceId, revision: nat)

  /** `n.saturating_add(1).max(1)` on 64 bits. */
  function Next(n: nat): nat {
    if n < U64_MAX then n + 1 else U64_MAX
  }

  type Importers = map<SourceId, set<SourceId>>

  function Of(dependents: Importers, source: SourceId): set<SourceId> {
    if source in dependents then dependents[source] else {}
  }

  // ----- the value of a session ----------------------------------------------------------

  datatype State = State(
    nextSource: nat,
    nextRevision: map<SourceId, nat>,
    snapshots: map<SourceId, Snapshot>,
    dependents: Importers,
    stale: set<SourceId>)
  {
    /** The last revision given to a source; 0 before its first snapshot. */
    function Revision(source: SourceId): nat {
      if source in nextRevision then nextRevision[source] else 0
    }

    function Issue(source: SourceId): Option<Request> {
      if source in snapshots && source !in stale
      then Some(Request(source, snapshots[source].revision))
      else None
    }

    function Accept(request: Request): Option<Snapshot> {
      if request.source in snapshots && snapshots[request.source].revision == request.revision
         && request.source !in stale
      then Some(snapshots[request.source])
      else None
    }

    /** A snapshot carries its source and the last revision given to it. */
    predicate Consistent() {
      && (forall k <- nextRevision :: 1 <= nextRevision[k] <= U64_MAX)
      && (forall k <- snapshots ::
            snapshots[k].source == k && k in nextRevision && snapshots[k].revision == nextRevision[k])
    }
  }

  // ----- invalidation ------------------------------------------------------------------------

  /** `path` follows importer links and meets no source of `stale`. */
  predicate FreshPath(dependents: Importers, stale: set<SourceId>, path: seq<SourceId>) {
    && path != []
    && (forall i | 0 <= i < |path| :: path[i] !in stale)
    && (forall i | 0 <= i < |path| - 1 :: path[i + 1] in Of(dependents, path[i]))
  }

  ghost predicate Spreads(dependents: Importers, stale: set<SourceId>, from: SourceId, to: SourceId) {
    exists path :: FreshPath(dependents, stale, path) && path[0] == from && path[|path| - 1] == to
  }

  function Known(dependents: Importers, source: SourceId): set<SourceId> {
    {source} + set k, q | k in dependents && q in dependents[k] :: q
  }

  /** What invalidating `source` adds to the stale set: exactly the sources
      reached along importer links without crossing one already stale. */
  ghost function Reached(dependents: Importers, stale: set<SourceId>, source: SourceId): (r: set<SourceId>)
    ensures forall q :: q in r <==> Spreads(dependents, stale, source, q)
  {
    forall q | Spreads(dependents, stale, source, q) ensures q in Known(dependents, source) {
      SpreadIsKnown(dependents, stale, source, q);
    }
    set q | q in Known(dependents, source) && Spreads(dependents, stale, source, q)
  }

  lemma SpreadIsKnown(dependents: Importers, stale: set<SourceId>, from: SourceId, to: SourceId)
    requires Spreads(dependents, stale, from, to)
    ensures to in Known(dependents, from) && from !in stale && to !in stale
  {
    var path :| FreshPath(dependents, stale, path) && path[0] == from && path[|path| - 1] == to;
    if |path| > 1 {
      assert path[|path| - 2 + 1] in Of(dependents, path[|path| - 2]);
    }
  }

  lemma SpreadStart(dependents: Importers, stale: set<SourceId>, from: SourceId)
    requires from !in stale
    ensures Spreads(dependents, stale, from, from)
  {
    assert FreshPath(dependents, stale, [from]);
  }

  lemma SpreadStep(dependents: Importers, stale: set<SourceId>, from: SourceId, to: SourceId, next: SourceId)
    requires Spreads(dependents, stale, from, to) && next in Of(dependents, to) && next !in stale
    ensures Spreads(dependents, stale, from, next)
  {
    var path :| FreshPath(dependents, stale, path) && path[0] == from && path[|path| - 1] == to;
    var longer := path + [next];
    assert FreshPath(dependents, stale, longer) && longer[|longer| - 1] == next;
  }

  /** Every fresh path stays in a set that holds its start and is closed. */
  lemma {:induction false} PathStaysIn(
      dependents: Importers, stale: set<SourceId>, path: seq<SourceId>, closed: set<SourceId>)
    requires FreshPath(dependents, stale, path) && path[0] in closed
    requires forall x, y | x in closed && x !in stale && y in Of(dependents, x) :: y in closed
    ensures path[|path| - 1] in closed
    decreases |path|
  {
    if |path| > 1 {
      assert path[0 + 1] in Of(dependents, path[0]);
      var rest := path[1..];
      forall i | 0 <= i < |rest| - 1 ensures rest[i + 1] in Of(dependents, rest[i]) {
        assert path[i + 1 + 1] in Of(dependents, path[i + 1]);
      }
      PathStaysIn(dependents, stale, rest, closed);
    }
  }

  method Elements(s: set<SourceId>) returns (r: seq<SourceId>)
    ensures forall x :: x in r <==> x in s
  {
    r := [];
    var rest := s;
    while rest != {}
      invariant forall x :: x in s <==> x in r || x in rest
      decreases rest
    {
      var x :| x in rest;
      r, rest := r + [x], rest - {x};
    }
  }

  // ----- operations, on values ------------------------------------------------------------------

  ghost function Invalidate(s: State, source: SourceId): State {
    s.(stale := s.stale + Reached(s.dependents, s.stale, source))
  }

  function ChosenSource(s: State, source: Option<SourceId>): SourceId {
    if source.Some? then source.value else Next(s.nextSource)
  }

  ghost function Upsert(s: State, source: Option<SourceId>, text: string): State {
    var k := ChosenSource(s, source);
    var revision := Next(s.Revision(k));
    var inserted := s.(
      nextSource := if source.Some? then s.nextSource else k,
      nextRevision := s.nextRevision[k := revision],
      snapshots := s.snapshots[k := Snapshot(k, revision, text)],
      stale := s.stale - {k});
    if k in s.snapshots then
      var invalid := Invalidate(inserted, k);
      invalid.(stale := invalid.stale - {k})
    else inserted
  }

  function Unchanged(s: State, source: Option<SourceId>, text: string): bool {
    source.Some? && source.value in s.snapshots && s.snapshots[source.value].text == text
  }

  ghost function Remove(s: State, source: SourceId): State {
    if source in s.snapshots then Invalidate(s.(snapshots := s.snapshots - {source}), source) else s
  }

  datatype Operation =
    | DoUpsert(source: Option<SourceId>, text: string)
    | DoUpsertIfChanged(source: Option<SourceId>, text: string)
    | DoRegisterImport(importer: SourceId, imported: SourceId)
    | DoCancel(request: Request)
    | DoRemove(removed: SourceId)

  ghost function Apply(s: State, op: Operation): State {
    match op
    case DoUpsert(source, text) => Upsert(s, source, text)
    case DoUpsertIfChanged(source, text) => if Unchanged(s, source, text) then s else Upsert(s, source, text)
    case DoRegisterImport(importer, imported) =>
      s.(dependents := s.dependents[imported := Of(s.dependents, imported) + {importer}])
    case DoCancel(request) => if s.Accept(request).Some? then Invalidate(s, request.source) else s
    case DoRemove(source) => Remove(s, source)
  }

  ghost function Run(s: State, ops: seq<Operation>): State
    decreases |ops|
  {
    if ops == [] then s else Run(Apply(s, ops[0]), ops[1..])
  }

  const Empty: State := State(0, map[], map[], map[], {})

  // ----- the session object ---------------------------------------------------------------------

  class Session {
    var nextSource: nat
    var nextRevision: map<SourceId, nat>
    var snapshots: map<SourceId, Snapshot>
    var dependents: Importers
    var stale: set<SourceId>

    ghost function Value(): State
      reads this
    {
      State(nextSource, nextRevision, snapshots, dependents, stale)
    }

    constructor ()
      ensures Value() == Empty
    {
      nextSource, nextRevision, snapshots, dependents, stale := 0, map[], map[], map[], {};
    }

    method InvalidateFrom(source: SourceId)
      modifies this`stale
      ensures Value() == Invalidate(old(Value()), source)
    {
      ghost var stale0 := stale;
      ghost var known := Known(dependents, source);
      if source !in stale {
        SpreadStart(dependents, stale0, source);
      }
      var pending := [source];
      while pending != []
        invariant forall q <- pending :: q in known
        invariant stale0 <= stale
        invariant forall q <- stale :: q in stale0 || Spreads(dependents, stale0, source, q)
        invariant forall q <- pending :: q in stale0 || Spreads(dependents, stale0, source, q)
        invariant source in stale || source in pending
        invariant forall x, y | x in stale && x !in stale0 && y in Of(dependents, x) :: y in stale || y in pending
        decreases known - stale, |pending|
      {
        var current := pending[0];
        ghost var before := pending;
        pending := pending[1..];
        assert forall q :: q in before <==> q == current || q in pending;
        if current !in stale {
          stale := stale + {current};
          if current in dependents {
            var importers := Elements(dependents[current]);
            forall q <- importers ensures q in known && (q in stale0 || Spreads(dependents, stale0, source, q)) {
              if q !in stale0 {
                SpreadStep(dependents, stale0, source, current, q);
              }
            }
            pending := pending + importers;
          }
        }
      }
      forall q | Spreads(dependents, stale0, source, q) ensures q in stale {
        var path :| FreshPath(dependents, stale0, path) && path[0] == source && path[|path| - 1] == q;
        PathStaysIn(dependents, stale0, path, stale);
      }
    }

    method UpsertSource(source: Option<SourceId>, text: string) returns (snapshot: Snapshot)
      modifies this
      ensures Value() == Upsert(old(Value()), source, text)
      ensures var k := ChosenSource(old(Value()), source);
              snapshot == Snapshot(k, Next(old(Value()).Revision(k)), text)
    {
      var k: SourceId;
      if source.Some? {
        k := source.value;
      } else {
        nextSource := Next(nextSource);
        k := nextSource;
      }
      var revision := Next(if k in nextRevision then nextRevision[k] else 0);
      nextRevision := nextRevision[k := revision];
      snapshot := Snapshot(k, revision, text);
      var existed := k in snapshots;
      snapshots := snapshots[k := snapshot];
      stale := stale - {k};
      if existed {
        InvalidateFrom(k);
        stale := stale - {k};
      }
    }

    method UpsertIfChanged(source: Option<SourceId>, text: string) returns (snapshot: Snapshot)
      modifies this
      ensures Value() == Apply(old(Value()), DoUpsertIfChanged(source, text))
      ensures snapshot.text == text
      ensures old(Value()).Consistent() ==> snapshot.source in snapshots && snapshot == snapshots[snapshot.source]
    {
      if source.Some? && source.value in snapshots && snapshots[source.value].text == text {
        return snapshots[source.value];
      }
      snapshot := UpsertSource(source, text);
    }

    method RegisterImport(importer: SourceId, imported: SourceId)
      modifies this`dependents
      ensures Value() == Apply(old(Value()), DoRegisterImport(importer, imported))
    {
      var importers := if imported in dependents then dependents[imported] else {};
      dependents := dependents[imported := importers + {importer}];
    }

    method RequestAnalysis(source: SourceId) returns (r: Option<Request>)
      ensures r == Value().Issue(source)
      ensures r.Some? ==> Value().Accept(r.value) == Some(snapshots[source])
    {
      if source !in snapshots || source in stale {
        return None;
      }
      return Some(Request(source, snapshots[source].revision));
    }

    method Cancel(request: Request) returns (applied: bool)
      modifies this`stale
      ensures applied == old(Value()).Accept(request).Some?
      ensures Value() == Apply(old(Value()), DoCancel(request))
    {
      applied := request.source in snapshots && snapshots[request.source].revision == request.revision
                 && request.source !in stale;
      if applied {
        InvalidateFrom(request.source);
      }
    }

    method RemoveSource(source: SourceId) returns (removed: Option<Snapshot>)
      modifies this
      ensures Value() == Apply(old(Value()), DoRemove(source))
      ensures removed == if source in old(snapshots) then Some(old(snapshots)[source]) else None
    {
      if source !in snapshots {
        return None;
      }
      removed := Some(snapshots[source]);
      snapshots := snapshots - {source};
      InvalidateFrom(source);
    }
  }

  // ----- what invalidation means ---------------------------------------------------------------

  /** `to` imports `from`, directly or through others. */
  ghost predicate Imports(dependents: Importers, from: SourceId, to: SourceId) {
    exists path ::
      FreshPath(dependents, {}, path) && |path| > 1 && path[0] == from && path[|path| - 1] == to
  }

  /** A path from a changed source ends stale: where it first meets a stale
      source the closure takes over, and before that the spread does. */
  lemma {:induction false} ImporterGoesStale(
      dependents: Importers, stale: set<SourceId>, source: SourceId, path: seq<SourceId>)
    requires source !in stale
    requires forall x, y | x in stale && y in Of(dependents, x) :: y in stale || y == source
    requires FreshPath(dependents, {}, path) && path[0] == source
    ensures path[|path| - 1] in stale || Spreads(dependents, stale, source, path[|path| - 1])
    decreases |path|
  {
    if |path| == 1 {
      SpreadStart(dependents, stale, source);
    } else {
      var last := path[|path| - 1];
      var before := path[..|path| - 1];
      assert last == path[|path| - 2 + 1] && last in Of(dependents, path[|path| - 2]);
      ImporterGoesStale(dependents, stale, source, before);
      var previous := before[|before| - 1];
      if last !in stale {
        if previous in stale {
          SpreadStart(dependents, stale, source);
        } else {
          SpreadStep(dependents, stale, source, previous, last);
        }
      }
    }
  }

  /** When the other stale sources were closed under importers, changing an
      existing source leaves it fresh and every transitive importer stale. */
  lemma ChangeReachesEveryImporter(s: State, source: SourceId, text: string)
    requires source in s.snapshots
    requires forall x, y | x in s.stale && x != source && y in Of(s.dependents, x) :: y in s.stale || y == source
    ensures var after := Upsert(s, Some(source), text);
            && source !in after.stale
            && (forall q | q != source && Imports(s.dependents, source, q) :: q in after.stale)
            && (forall q <- after.stale :: q in s.stale || Imports(s.dependents, source, q))
  {
    var others := s.stale - {source};
    forall q | q != source && Imports(s.dependents, source, q)
      ensures q in Upsert(s, Some(source), text).stale
    {
      var path :| FreshPath(s.dependents, {}, path) && path[0] == source && path[|path| - 1] == q;
      ImporterGoesStale(s.dependents, others, source, path);
    }
    forall q <- Upsert(s, Some(source), text).stale ensures q in s.stale || Imports(s.dependents, source, q) {
      if q !in s.stale {
        var path :| FreshPath(s.dependents, others, path) && path[0] == source && path[|path| - 1] == q;
        assert FreshPath(s.dependents, {}, path);
      }
    }
  }

  /** Every importer of a stale source is stale. */
  predicate Closed(dependents: Importers, stale: set<SourceId>) {
    forall x <- stale :: Of(dependents, x) <= stale
  }

  /** No source that is or becomes stale by changing `k` is imported by `k`. */
  ghost predicate ImportsNothingStale(s: State, k: SourceId) {
    forall x | x != k && (x in s.stale || (k in s.snapshots && Imports(s.dependents, k, x))) ::
      k !in Of(s.dependents, x)
  }

  /** When an operation keeps a closed stale set closed, read before the call. */
  ghost predicate KeepsClosed(s: State, op: Operation) {
    match op
    case DoUpsert(source, _) => ImportsNothingStale(s, ChosenSource(s, source))
    case DoUpsertIfChanged(source, text) =>
      Unchanged(s, source, text) || ImportsNothingStale(s, ChosenSource(s, source))
    case DoRegisterImport(importer, imported) => imported in s.stale ==> importer in s.stale
    case DoCancel(_) => true
    case DoRemove(_) => true
  }

  lemma ImportsStep(dependents: Importers, from: SourceId, to: SourceId, next: SourceId)
    requires Imports(dependents, from, to) && next in Of(dependents, to)
    ensures Imports(dependents, from, next)
  {
    var path :| FreshPath(dependents, {}, path) && |path| > 1 && path[0] == from && path[|path| - 1] == to;
    var longer := path + [next];
    assert FreshPath(dependents, {}, longer) && longer[|longer| - 1] == next;
  }

  lemma InvalidateKeepsClosed(s: State, source: SourceId)
    requires Closed(s.dependents, s.stale)
    ensures Closed(s.dependents, Invalidate(s, source).stale)
  {
    forall x <- Invalidate(s, source).stale ensures Of(s.dependents, x) <= Invalidate(s, source).stale {
      forall y <- Of(s.dependents, x) ensures y in Invalidate(s, source).stale {
        if x !in s.stale && y !in s.stale {
          SpreadStep(s.dependents, s.stale, source, x, y);
        }
      }
    }
  }

  /** The stale set after an upsert, when it was closed before. */
  lemma StaleAfterUpsert(s: State, source: Option<SourceId>, text: string, x: SourceId)
    requires Closed(s.dependents, s.stale)
    ensures var k := ChosenSource(s, source);
            x in Upsert(s, source, text).stale <==>
              x != k && (x in s.stale || (k in s.snapshots && Imports(s.dependents, k, x)))
  {
    var k := ChosenSource(s, source);
    if k in s.snapshots {
      ChangeReachesEveryImporter(s, k, text);
      assert Upsert(s, source, text).stale == Upsert(s, Some(k), text).stale;
    }
  }

  /** An upsert keeps the stale set closed exactly when its source imports
      nothing that is, or thereby becomes, stale. */
  lemma UpsertKeepsClosed(s: State, source: Option<SourceId>, text: string)
    requires Closed(s.dependents, s.stale)
    ensures Closed(s.dependents, Upsert(s, source, text).stale) <==> ImportsNothingStale(s, ChosenSource(s, source))
  {
    var k, after := ChosenSource(s, source), Upsert(s, source, text).stale;
    forall x ensures x in after <==> x != k && (x in s.stale || (k in s.snapshots && Imports(s.dependents, k, x))) {
      StaleAfterUpsert(s, source, text, x);
    }
    hide Upsert;
    forall x <- after ensures Of(s.dependents, x) <= after <==> k !in Of(s.dependents, x) {
      forall y <- Of(s.dependents, x) ensures y in after <==> y != k {
        if x !in s.stale {
          ImportsStep(s.dependents, k, x, y);
        }
      }
    }
  }

  /** Exactly when each operation keeps the stale set closed under importers. */
  lemma ClosureIsKept(s: State, op: Operation)
    requires Closed(s.dependents, s.stale)
    ensures var after := Apply(s, op);
            Closed(after.dependents, after.stale) <==> KeepsClosed(s, op)
  {
    hide ImportsNothingStale;
    match op
    case DoUpsert(source, text) => UpsertKeepsClosed(s, source, text);
    case DoUpsertIfChanged(source, text) => UpsertKeepsClosed(s, source, text);
    case DoRegisterImport(importer, imported) =>
    case DoCancel(request) => InvalidateKeepsClosed(s, request.source);
    case DoRemove(source) => InvalidateKeepsClosed(s.(snapshots := s.snapshots - {source}), source);
  }

  /** The operations that bring an empty session to a closed stale set that
      re-reading source 2, which imports the stale source 1, breaks. */
  const Breaking: seq<Operation> := [
    DoUpsert(None, ""),
    DoUpsert(None, ""),
    DoRegisterImport(2, 1),
    DoCancel(Request(1, 1))
  ]

  /** What `Breaking` leads to. */
  const Broken: State :=
    State(2, map[1 := 1, 2 := 1], map[1 := Snapshot(1, 1, ""), 2 := Snapshot(2, 1, "")], map[1 := {2}], {1, 2})

  lemma ClosureCanBreak(text: string)
    ensures Run(Empty, Breaking) == Broken
    ensures Closed(Broken.dependents, Broken.stale)
    ensures !Closed(Broken.dependents, Upsert(Broken, Some(2), text).stale)
  {
    BreakingRuns();
    assert 1 in Broken.stale && 2 in Of(Broken.dependents, 1);
    UpsertKeepsClosed(Broken, Some(2), text);
  }

  lemma BreakingRuns()
    ensures Run(Empty, Breaking) == Broken
  {
    var entered := Broken.(dependents := map[], stale := {});
    var before := Broken.(stale := {});
    assert Apply(Apply(Empty, DoUpsert(None, "")), DoUpsert(None, "")) == entered;
    var none: Importers := map[];
    assert Of(none, 1) + {2} == {2};
    assert none[1 := Of(none, 1) + {2}] == Broken.dependents;
    assert Apply(entered, DoRegisterImport(2, 1)) == before;
    CancelSpreads();
    RunFour(Empty, Breaking);
  }

  lemma CancelSpreads()
    ensures Apply(Broken.(stale := {}), DoCancel(Request(1, 1))) == Broken
  {
    var dependents := Broken.dependents;
    SpreadStart(dependents, {}, 1);
    SpreadStep(dependents, {}, 1, 1, 2);
    forall q <- Reached(dependents, {}, 1) ensures q in {1, 2} {
      SpreadIsKnown(dependents, {}, 1, q);
    }
    assert Reached(dependents, {}, 1) == {1, 2};
  }

  lemma RunFour(s: State, ops: seq<Operation>)
    requires |ops| == 4
    ensures Run(s, ops) == Apply(Apply(Apply(Apply(s, ops[0]), ops[1]), ops[2]), ops[3])
  {
    hide Apply;
    var s1 := Apply(s, ops[0]);
    var s2 := Apply(s1, ops[1]);
    var s3 := Apply(s2, ops[2]);
    assert ops[1..][1..] == ops[2..] && ops[2..][1..] == ops[3..] && ops[3..] == [ops[3]];
    assert Run(s, ops) == Run(s1, ops[1..]) && Run(s1, ops[1..]) == Run(s2, ops[2..]);
    assert Run(s2, ops[2..]) == Run(s3, ops[3..]);
    RunOne(s3, ops[3]);
  }

  // ----- requests over whole runs ---------------------------------------------------------------

  lemma ApplyKeepsConsistent(s: State, op: Operation)
    requires s.Consistent()
    ensures Apply(s, op).Consistent()
    ensures forall k :: s.Revision(k) <= Apply(s, op).Revision(k)
  {
  }

  /** Revisions never decrease, even across removals. */
  lemma {:induction false} RunKeepsConsistent(s: State, ops: seq<Operation>)
    requires s.Consistent()
    ensures Run(s, ops).Consistent()
    ensures forall k :: s.Revision(k) <= Run(s, ops).Revision(k)
    decreases |ops|
  {
    if ops != [] {
      ApplyKeepsConsistent(s, ops[0]);
      RunKeepsConsistent(Apply(s, ops[0]), ops[1..]);
    }
  }

  /** A new snapshot raises its source's revision unless it is saturated. */
  lemma UpsertRaises(s: State, source: Option<SourceId>, text: string)
    requires s.Consistent()
    ensures var k := ChosenSource(s, source);
            var after := Upsert(s, source, text);
            && after.Revision(k) == (if s.Revision(k) < U64_MAX then s.Revision(k) + 1 else U64_MAX)
            && after.Accept(Request(k, after.Revision(k))) == Some(Snapshot(k, after.Revision(k), text))
            && after.Issue(k) == Some(Request(k, after.Revision(k)))
  {
  }

  /** Entering the text a source already has changes nothing; entering another, or a
      source that is not stored, is an upsert. */
  lemma OnlyNewTextIsUpserted(s: State, k: SourceId, text: string)
    requires s.Consistent()
    ensures Apply(s, DoUpsertIfChanged(Some(k), text)) == s <==> k in s.snapshots && s.snapshots[k].text == text
    ensures !(k in s.snapshots && s.snapshots[k].text == text) ==>
              Apply(s, DoUpsertIfChanged(Some(k), text)) == Apply(s, DoUpsert(Some(k), text))
    ensures Apply(s, DoUpsertIfChanged(None, text)) == Apply(s, DoUpsert(None, text))
  {
    var after := Upsert(s, Some(k), text);
    assert k in after.snapshots && after.snapshots[k].text == text;
  }

  /** The existing source whose change an operation announces, if any. */
  function Changed(s: State, op: Operation): Option<SourceId> {
    match op
    case DoUpsert(source, _) => Stored(s, ChosenSource(s, source))
    case DoUpsertIfChanged(source, text) =>
      if Unchanged(s, source, text) then None else Stored(s, ChosenSource(s, source))
    case DoRegisterImport(_, _) => None
    case DoCancel(request) => if s.Accept(request).Some? then Some(request.source) else None
    case DoRemove(source) => Stored(s, source)
  }

  function Stored(s: State, k: SourceId): Option<SourceId> {
    if k in s.snapshots then Some(k) else None
  }

  /** The source that an operation gives a new text, if any. */
  function Reread(s: State, op: Operation): Option<SourceId> {
    match op
    case DoUpsert(source, _) => Some(ChosenSource(s, source))
    case DoUpsertIfChanged(source, text) => if Unchanged(s, source, text) then None else Some(ChosenSource(s, source))
    case _ => None
  }

  /** The stale sources other than `k` are closed under importers, up to `k`. */
  predicate RestClosed(s: State, k: SourceId) {
    forall x <- s.stale :: x != k ==> Of(s.dependents, x) <= s.stale + {k}
  }

  lemma InvalidateReaches(s: State, k: SourceId, q: SourceId)
    requires k !in s.stale && RestClosed(s, k) && q != k
    ensures q in Invalidate(s, k).stale <==> q in s.stale || Imports(s.dependents, k, q)
  {
    if Imports(s.dependents, k, q) {
      var path :| FreshPath(s.dependents, {}, path) && |path| > 1 && path[0] == k && path[|path| - 1] == q;
      ImporterGoesStale(s.dependents, s.stale, k, path);
    } else if Spreads(s.dependents, s.stale, k, q) {
      var path :| FreshPath(s.dependents, s.stale, path) && path[0] == k && path[|path| - 1] == q;
      assert FreshPath(s.dependents, {}, path);
    }
  }

  lemma UpsertReaches(s: State, k: SourceId, text: string, q: SourceId)
    requires k in s.snapshots && RestClosed(s, k) && q != k
    ensures q in Upsert(s, Some(k), text).stale <==> q in s.stale || Imports(s.dependents, k, q)
  {
    ChangeReachesEveryImporter(s, k, text);
  }

  lemma StaleAfterChange(s: State, op: Operation, q: SourceId)
    requires Changed(s, op).Some? && RestClosed(s, Changed(s, op).value) && q != Changed(s, op).value
    requires op.DoRemove? ==> op.removed !in s.stale
    ensures q in Apply(s, op).stale <==> q in s.stale || Imports(s.dependents, Changed(s, op).value, q)
  {
    var k := Changed(s, op).value;
    match op
    case DoUpsert(source, text) =>
      UpsertReaches(s, k, text, q);
      assert Upsert(s, source, text).stale == Upsert(s, Some(k), text).stale;
    case DoUpsertIfChanged(source, text) =>
      UpsertReaches(s, k, text, q);
      assert Upsert(s, source, text).stale == Upsert(s, Some(k), text).stale;
    case DoCancel(_) => InvalidateReaches(s, k, q);
    case DoRemove(_) => InvalidateReaches(s.(snapshots := s.snapshots - {k}), k, q);
  }

  /** What a change does to requests: when the other stale sources were closed
      under importers, the requests of exactly the transitive importers of the
      changed source are rejected, whatever their revision, and none is issued;
      every other source's requests are accepted and issued as before.  A source
      cancelled or removed is not accepted either, and one that is stale when it
      is removed has made its importers stale before. */
  lemma ChangeRejectsImporters(s: State, op: Operation, q: SourceId, revision: nat)
    requires Changed(s, op).Some? && RestClosed(s, Changed(s, op).value)
    requires op.DoRemove? ==> op.removed !in s.stale
    ensures var k, after, r := Changed(s, op).value, Apply(s, op), Request(q, revision);
            && (q != k && Imports(s.dependents, k, q) ==> after.Accept(r).None? && after.Issue(q).None?)
            && (q != k && !Imports(s.dependents, k, q) ==>
                  after.Accept(r) == s.Accept(r) && after.Issue(q) == s.Issue(q))
            && (q == k && Reread(s, op).None? ==> after.Accept(r).None? && after.Issue(q).None?)
  {
    var k := Changed(s, op).value;
    if q != k {
      StaleAfterChange(s, op, q);
    } else if Reread(s, op).None? {
      SpreadStart(s.dependents, s.stale, k);
    }
  }

  /** Removing a source that is stale leaves everyone else's requests alone. */
  lemma RemovingStaleChangesNothing(s: State, source: SourceId, r: Request)
    requires source in s.stale
    ensures var after := Apply(s, DoRemove(source));
            after.Accept(r) == if r.source == source then None else s.Accept(r)
  {
    if source in s.snapshots {
      assert forall q :: !Spreads(s.dependents, s.stale, source, q) by {
        forall q | Spreads(s.dependents, s.stale, source, q) ensures false {
          SpreadIsKnown(s.dependents, s.stale, source, q);
        }
      }
    }
  }

  /** An operation that changes no existing source leaves the requests of every
      source it does not read alone. */
  lemma OthersKeepTheirRequests(s: State, op: Operation, r: Request)
    requires Changed(s, op).None? && Reread(s, op) != Some(r.source)
    ensures Apply(s, op).Accept(r) == s.Accept(r) && Apply(s, op).Issue(r.source) == s.Issue(r.source)
  {
  }

  /** The states before each operation of a run. */
  ghost function States(s: State, ops: seq<Operation>): (r: seq<State>)
    ensures |r| == |ops|
    decreases |ops|
  {
    if ops == [] then [] else [s] + States(Apply(s, ops[0]), ops[1..])
  }

  /** A stale source is not accepted or issued again, at any revision, until it
      is read again. */
  lemma {:induction false} StaleUntilReread(s: State, ops: seq<Operation>, q: SourceId, revision: nat)
    requires q in s.stale
    requires forall i | 0 <= i < |ops| :: Reread(States(s, ops)[i], ops[i]) != Some(q)
    ensures q in Run(s, ops).stale
    ensures Run(s, ops).Accept(Request(q, revision)).None? && Run(s, ops).Issue(q).None?
    decreases |ops|
  {
    if ops != [] {
      var next, rest := Apply(s, ops[0]), ops[1..];
      assert Reread(States(s, ops)[0], ops[0]) != Some(q);
      forall i | 0 <= i < |rest| ensures Reread(States(next, rest)[i], rest[i]) != Some(q) {
        assert States(s, ops)[i + 1] == States(next, rest)[i] && ops[i + 1] == rest[i];
      }
      StaleUntilReread(next, rest, q, revision);
    }
  }

  /** Over every run: once a source it imports has changed, a source's requests
      are rejected until it is read again. */
  lemma ImportersWaitToBeReread(s: State, op: Operation, ops: seq<Operation>, q: SourceId, revision: nat)
    requires Changed(s, op).Some? && RestClosed(s, Changed(s, op).value)
    requires op.DoRemove? ==> op.removed !in s.stale
    requires q != Changed(s, op).value && Imports(s.dependents, Changed(s, op).value, q)
    requires var after := Apply(s, op);
             forall i | 0 <= i < |ops| :: Reread(States(after, ops)[i], ops[i]) != Some(q)
    ensures Run(Apply(s, op), ops).Accept(Request(q, revision)).None?
    ensures Run(Apply(s, op), ops).Issue(q).None?
  {
    hide Apply;
    hide Changed;
    hide Reread;
    hide States;
    hide Run;
    hide RestClosed;
    hide Imports;
    StaleAfterChange(s, op, q);
    StaleUntilReread(Apply(s, op), ops, q, revision);
  }

  /** A registered import counts from then on, with those that counted before. */
  lemma RegisteredImportCounts(s: State, importer: SourceId, imported: SourceId, from: SourceId, to: SourceId)
    ensures var after := Apply(s, DoRegisterImport(importer, imported));
            && Imports(after.dependents, imported, importer)
            && (Imports(s.dependents, from, to) ==> Imports(after.dependents, from, to))
  {
    var after := Apply(s, DoRegisterImport(importer, imported));
    assert FreshPath(after.dependents, {}, [imported, importer]);
    if Imports(s.dependents, from, to) {
      var path :| FreshPath(s.dependents, {}, path) && |path| > 1 && path[0] == from && path[|path| - 1] == to;
      assert FreshPath(after.dependents, {}, path);
    }
  }

  /** Below saturation a source made without an identifier gets one that no such
      source had before. */
  lemma {:induction false} NewSourceIsNew(s: State, ops: seq<Operation>, text: string)
    requires Run(s, ops).nextSource < U64_MAX
    ensures s.nextSource <= Run(s, ops).nextSource < ChosenSource(Run(s, ops), None)
    ensures Upsert(Run(s, ops), None, text).nextSource == ChosenSource(Run(s, ops), None)
    decreases |ops|
  {
    if ops != [] {
      NewSourceIsNew(Apply(s, ops[0]), ops[1..], text);
      NextSourceGrows(s, ops[0]);
    }
  }

  lemma NextSourceGrows(s: State, op: Operation)
    requires s.nextSource <= U64_MAX
    ensures s.nextSource <= Apply(s, op).nextSource
  {
  }

  /** The request can no longer be accepted with any other text than `text`. */
  predicate Pinned(s: State, r: Request, snapshot: Snapshot) {
    || s.Revision(r.source) > r.revision
    || (s.Revision(r.source) == r.revision && (r.source in s.snapshots ==> s.snapshots[r.source] == snapshot))
  }

  lemma PinnedStep(s: State, op: Operation, r: Request, snapshot: Snapshot)
    requires s.Consistent() && r.revision < U64_MAX && Pinned(s, r, snapshot)
    ensures Pinned(Apply(s, op), r, snapshot)
  {
  }

  lemma {:induction false} PinnedRun(s: State, ops: seq<Operation>, r: Request, snapshot: Snapshot)
    requires s.Consistent() && r.revision < U64_MAX && Pinned(s, r, snapshot)
    ensures Run(s, ops).Consistent() && Pinned(Run(s, ops), r, snapshot)
    decreases |ops|
  {
    if ops != [] {
      ApplyKeepsConsistent(s, ops[0]);
      PinnedStep(s, ops[0], r, snapshot);
      PinnedRun(Apply(s, ops[0]), ops[1..], r, snapshot);
    }
  }

  /** The request was issued in the past and cannot be accepted any more. */
  predicate Dead(s: State, r: Request) {
    || s.Revision(r.source) > r.revision
    || (s.Revision(r.source) == r.revision && (r.source in s.snapshots ==> r.source in s.stale))
  }

  lemma DeadStep(s: State, op: Operation, r: Request)
    requires s.Consistent() && r.revision < U64_MAX && Dead(s, r)
    ensures Dead(Apply(s, op), r)
  {
  }

  lemma {:induction false} DeadRun(s: State, ops: seq<Operation>, r: Request)
    requires s.Consistent() && r.revision < U64_MAX && Dead(s, r)
    ensures Run(s, ops).Consistent() && Dead(Run(s, ops), r)
    decreases |ops|
  {
    if ops != [] {
      ApplyKeepsConsistent(s, ops[0]);
      DeadStep(s, ops[0], r);
      DeadRun(Apply(s, ops[0]), ops[1..], r);
    }
  }

  lemma RunOne(s: State, op: Operation)
    ensures Run(s, [op]) == Apply(s, op)
  {
    assert [op][1..] == [];
  }

  /** A request is accepted, over every run, only for the snapshot it was
      issued for, exactly when its revision is below saturation. */
  lemma AcceptedOnlyForItsSnapshot(s: State, r: Request)
    requires s.Consistent() && s.Accept(r).Some?
    ensures r.revision < U64_MAX <==>
            forall ops :: Run(s, ops).Accept(r).Some? ==> Run(s, ops).Accept(r) == s.Accept(r)
  {
    if r.revision < U64_MAX {
      forall ops | Run(s, ops).Accept(r).Some? ensures Run(s, ops).Accept(r) == s.Accept(r) {
        PinnedRun(s, ops, r, s.Accept(r).value);
      }
    } else {
      var text := s.Accept(r).value.text + "!";
      var ops := [DoUpsert(Some(r.source), text)];
      assert s.Revision(r.source) == r.revision == U64_MAX;
      RunOne(s, ops[0]);
      UpsertRaises(s, Some(r.source), text);
      assert |text| != |s.Accept(r).value.text|;
      assert Run(s, ops).Accept(r) != s.Accept(r);
    }
  }

  /** Once a request issued in the past is rejected it is never accepted
      again, exactly when its revision is below saturation. */
  lemma RejectedForGood(s: State, r: Request)
    requires s.Consistent() && s.Accept(r).None?
    requires 1 <= r.revision <= s.Revision(r.source)
    ensures r.revision < U64_MAX <==> forall ops :: Run(s, ops).Accept(r).None?
  {
    if r.revision < U64_MAX {
      forall ops ensures Run(s, ops).Accept(r).None? {
        DeadRun(s, ops, r);
      }
    } else {
      assert r.source in s.nextRevision && s.Revision(r.source) == r.revision == U64_MAX;
      var ops := [DoUpsert(Some(r.source), "")];
      RunOne(s, ops[0]);
      UpsertRaises(s, Some(r.source), "");
      assert Run(s, ops).Accept(r).Some?;
    }
  }
}
