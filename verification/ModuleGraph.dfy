/** The module loader: a depth-first search over imports with Visiting and
    Loaded marks that numbers modules in post-order.  The file system, the
    import roots and the parser are a fixed `World`. */
module ModuleGraph {
  import opened Wrappers
  import opened Counting

  type Path = string

  /** Module ids are 32-bit: a graph holds at most this many modules. */
  const MODULE_LIMIT: nat := 0x1_0000_0000

  datatype Item = Import(parts: seq<string>) | Declaration

  /** What reading and parsing a file yields. */
  datatype Source = LexFailure | ParseFailure | Program(items: seq<Item>)

  /** Where an import leads: `rooted` says an import root holds the module. */
  datatype Resolution = Found(path: Path, rooted: bool) | Unresolvable

  datatype World = World(files: map<Path, Source>, overlays: set<Path>, resolver: map<seq<string>, Resolution>) {
    function Resolve(parts: seq<string>): Resolution {
      if parts in resolver then resolver[parts] else Unresolvable
    }

    /** The imports of a file that the loader follows, in file order. */
    function Requests(path: Path): seq<seq<string>> {
      if path in files && files[path].Program? then Followed(files[path].items) else []
    }

    predicate Admits(parts: seq<string>) {
      var r := Resolve(parts);
      r.Found? && (r.rooted || r.path in overlays)
    }

    /** A file that reads and parses and whose every import leads somewhere. */
    predicate Good(path: Path) {
      && path in files && files[path].Program?
      && forall parts <- Requests(path) :: Admits(parts)
    }

    predicate Edge(a: Path, b: Path) {
      exists parts <- Requests(a) :: Resolve(parts).Found? && Resolve(parts).path == b
    }

    predicate Chain(chain: seq<Path>) {
      && chain != []
      && forall k | 0 <= k < |chain| - 1 :: Edge(chain[k], chain[k + 1])
    }

    ghost predicate Reach(a: Path, b: Path) {
      exists chain :: Chain(chain) && chain[0] == a && chain[|chain| - 1] == b
    }

    ghost predicate AllReached(entry: Path, paths: set<Path>) {
      forall p <- paths :: Reach(entry, p)
    }

    ghost predicate TooMany(entry: Path) {
      exists paths :: AllReached(entry, paths) && |paths| > MODULE_LIMIT
    }

    /** What a program must satisfy to load: every file it needs is good, no
        import closes a cycle, and it fits the module limit. */
    ghost predicate Loadable(entry: Path) {
      && (forall p | Reach(entry, p) :: Good(p))
      && (forall p, q | Reach(entry, p) && Edge(p, q) :: !Reach(q, p))
      && !TooMany(entry)
    }
  }

  predicate IsHost(parts: seq<string>) {
    parts != [] && parts[0] == "HOST"
  }

  function Followed(items: seq<Item>): (r: seq<seq<string>>) {
    if items == [] then []
    else
      var last := items[|items| - 1];
      Followed(items[..|items| - 1]) + if last.Import? && !IsHost(last.parts) then [last.parts] else []
  }

  lemma FollowedStep(items: seq<Item>, k: nat)
    requires k < |items|
    ensures Followed(items[..k + 1]) ==
            Followed(items[..k]) + if items[k].Import? && !IsHost(items[k].parts) then [items[k].parts] else []
  {
    assert items[..k + 1][..k] == items[..k];
  }

  lemma FollowedIn(items: seq<Item>, k: nat)
    requires k < |items| && items[k].Import? && !IsHost(items[k].parts)
    ensures items[k].parts in Followed(items)
    decreases |items|
  {
    if k < |items| - 1 {
      FollowedIn(items[..|items| - 1], k);
    }
  }

  // ----- depth-first post-order ------------------------------------------------

  /** The order in which a depth-first search finishes files when it asks for
      `path` with `done` finished and only `unseen` still unvisited. */
  function PostOrder(w: World, done: seq<Path>, unseen: set<Path>, path: Path): seq<Path>
    decreases unseen, 0
  {
    if path in done || path !in unseen then done
    else PostOrderAll(w, done, unseen - {path}, w.Requests(path)) + [path]
  }

  function PostOrderAll(w: World, done: seq<Path>, unseen: set<Path>, requests: seq<seq<string>>): seq<Path>
    decreases unseen, 1, |requests|
  {
    if requests == [] then done
    else
      var before := PostOrderAll(w, done, unseen, requests[..|requests| - 1]);
      var last := w.Resolve(requests[|requests| - 1]);
      if last.Found? then PostOrder(w, before, unseen, last.path) else before
  }

  function Paths(modules: seq<LoadedModule>): (r: seq<Path>)
    ensures |r| == |modules| && forall i | 0 <= i < |r| :: r[i] == modules[i].path
  {
    seq(|modules|, i requires 0 <= i < |modules| => modules[i].path)
  }

  ghost function Unseen(w: World, chain: seq<Path>): set<Path> {
    w.files.Keys - set p | p in chain
  }

  lemma PathsSnoc(modules: seq<LoadedModule>, m: LoadedModule)
    ensures Paths(modules + [m]) == Paths(modules) + [m.path]
  {
  }

  lemma OrderOfDone(w: World, modules: seq<LoadedModule>, unseen: set<Path>, id: nat)
    requires id < |modules|
    ensures PostOrder(w, Paths(modules), unseen, modules[id].path) == Paths(modules)
  {
    assert Paths(modules)[id] == modules[id].path;
  }

  lemma OrderOfNext(w: World, done: seq<Path>, unseen: set<Path>, requests: seq<seq<string>>, parts: seq<string>)
    requires w.Resolve(parts).Found?
    ensures PostOrderAll(w, done, unseen, requests + [parts]) ==
            PostOrder(w, PostOrderAll(w, done, unseen, requests), unseen, w.Resolve(parts).path)
  {
    assert (requests + [parts])[..|requests|] == requests;
  }

  lemma OrderOfFinished(
      w: World, done: seq<Path>, chain: seq<Path>, path: Path, modules: seq<LoadedModule>, m: LoadedModule)
    requires m.path == path && path !in done && path in Unseen(w, chain)
    requires Paths(modules) == PostOrderAll(w, done, Unseen(w, chain + [path]), w.Requests(path))
    ensures Paths(modules + [m]) == PostOrder(w, done, Unseen(w, chain), path)
  {
    UnseenSnoc(w, chain, path);
    PathsSnoc(modules, m);
  }

  lemma UnseenSnoc(w: World, chain: seq<Path>, path: Path)
    ensures Unseen(w, chain + [path]) == Unseen(w, chain) - {path}
  {
    assert forall p :: p in chain + [path] <==> p in chain || p == path;
  }

  datatype State = Visiting | Loaded(id: nat)

  datatype LoadedModule = LoadedModule(id: nat, path: Path, imports: seq<nat>)

  datatype Graph = Graph(root: nat, modules: seq<LoadedModule>)

  datatype ModuleError =
    | EntryNotFound(path: Path)
    | NotFound(importer: Path, path: Path)
    | Unresolved(importer: Path, parts: seq<string>)
    | Lexical(path: Path)
    | Syntax(path: Path)
    | ImportCycle(importer: Path, path: Path)
    | ModuleLimit(path: Path)

  // ----- reachability ---------------------------------------------------------

  lemma ReachSelf(w: World, a: Path)
    ensures w.Reach(a, a)
  {
    assert w.Chain([a]);
  }

  lemma ReachStep(w: World, a: Path, b: Path, c: Path)
    requires w.Reach(a, b) && w.Edge(b, c)
    ensures w.Reach(a, c)
  {
    var chain :| w.Chain(chain) && chain[0] == a && chain[|chain| - 1] == b;
    var longer := chain + [c];
    assert w.Chain(longer) && longer[0] == a && longer[|longer| - 1] == c;
  }

  lemma ReachWithin(w: World, chain: seq<Path>, i: nat, j: nat)
    requires w.Chain(chain) && i <= j < |chain|
    ensures w.Reach(chain[i], chain[j])
  {
    var part := chain[i..j + 1];
    assert w.Chain(part) && part[0] == chain[i] && part[|part| - 1] == chain[j];
  }

  // ----- the state of a load ---------------------------------------------------

  /** Module `i` is the file it names and its imports are earlier modules, one
      per followed import, each at the path that import resolves to. */
  ghost predicate ModuleOk(w: World, modules: seq<LoadedModule>, i: nat)
    requires i < |modules|
  {
    var m := modules[i];
    var requests := w.Requests(m.path);
    && m.id == i
    && w.Good(m.path)
    && ImportsOk(w, modules, i, requests, m.imports)
  }

  ghost predicate ImportsOk(
      w: World, modules: seq<LoadedModule>, bound: nat, requests: seq<seq<string>>, imports: seq<nat>)
    requires bound <= |modules|
  {
    && |imports| == |requests|
    && forall k | 0 <= k < |requests| ::
         && w.Admits(requests[k])
         && imports[k] < bound
         && modules[imports[k]].path == w.Resolve(requests[k]).path
  }

  /** The loader's invariant; `chain` holds the files being visited, outermost
      first, so each imports the next. */
  ghost predicate Inv(w: World, entry: Path, states: map<Path, State>, modules: seq<LoadedModule>, chain: seq<Path>) {
    && |modules| <= MODULE_LIMIT
    && MarksOk(states, modules, chain)
    && ModulesOk(w, entry, modules)
    && (chain != [] ==> w.Chain(chain) && chain[0] == entry)
  }

  ghost predicate MarksOk(states: map<Path, State>, modules: seq<LoadedModule>, chain: seq<Path>) {
    && (forall p | p in states && states[p].Loaded? :: states[p].id < |modules| && modules[states[p].id].path == p)
    && (forall i | 0 <= i < |modules| :: modules[i].path in states && states[modules[i].path] == Loaded(i))
    && (forall p :: p in chain <==> p in states && states[p].Visiting?)
  }

  ghost predicate ModulesOk(w: World, entry: Path, modules: seq<LoadedModule>) {
    forall i | 0 <= i < |modules| :: ModuleOk(w, modules, i) && w.Reach(entry, modules[i].path)
  }

  /** Why a load failed, as a fact about the files reachable from the entry. */
  ghost predicate Defect(w: World, entry: Path, e: ModuleError) {
    match e
    case EntryNotFound(p) => p == entry && p !in w.files
    case NotFound(i, p) =>
      w.Reach(entry, i) && w.Edge(i, p) && (p !in w.files || !w.Good(i))
    case Unresolved(i, parts) => w.Reach(entry, i) && parts in w.Requests(i) && w.Resolve(parts).Unresolvable?
    case Lexical(p) => w.Reach(entry, p) && p in w.files && w.files[p].LexFailure?
    case Syntax(p) => w.Reach(entry, p) && p in w.files && w.files[p].ParseFailure?
    case ImportCycle(i, p) => w.Reach(entry, i) && w.Edge(i, p) && w.Reach(p, i)
    case ModuleLimit(p) => w.Reach(entry, p) && w.TooMany(entry)
  }

  // ----- which defect is reported -------------------------------------------------

  /** Everything that `p` needs is good, and none of it closes a cycle. */
  ghost predicate Settled(w: World, p: Path) {
    && (forall q | w.Reach(p, q) :: w.Good(q))
    && (forall q, r | w.Reach(p, q) && w.Edge(q, r) :: !w.Reach(r, q))
  }

  /** How a search that is visiting `chain` fails on a file it has not seen: the file
      is missing or does not parse, or one of its imports fails. */
  ghost predicate FileFails(w: World, chain: seq<Path>, path: Path, e: ModuleError)
    decreases Unseen(w, chain), 0
  {
    if path !in w.files then e == if chain == [] then EntryNotFound(path) else NotFound(chain[|chain| - 1], path)
    else match w.files[path]
      case LexFailure => e == Lexical(path)
      case ParseFailure => e == Syntax(path)
      case Program(_) => path !in chain && UnseenShrinks(w, chain, path) && SomeImportFails(w, chain + [path], e)
  }

  predicate UnseenShrinks(w: World, chain: seq<Path>, path: Path)
    requires path in w.files && path !in chain
    ensures UnseenShrinks(w, chain, path) && Unseen(w, chain + [path]) < Unseen(w, chain)
  {
    UnseenSnoc(w, chain, path);
    assert path in Unseen(w, chain) && path !in Unseen(w, chain + [path]);
    true
  }

  /** Some import of the innermost visited file fails, after imports that are settled. */
  ghost predicate SomeImportFails(w: World, chain: seq<Path>, e: ModuleError)
    requires chain != []
    decreases Unseen(w, chain), 4
  {
    exists k | 0 <= k < |w.Requests(chain[|chain| - 1])| :: FirstToFail(w, chain, k, e)
  }

  ghost predicate FirstToFail(w: World, chain: seq<Path>, k: nat, e: ModuleError)
    requires chain != [] && k < |w.Requests(chain[|chain| - 1])|
    decreases Unseen(w, chain), 3
  {
    var requests := w.Requests(chain[|chain| - 1]);
    AllSettled(w, chain, requests[..k]) && ImportFails(w, chain, requests[k], e)
  }

  /** How an import of the innermost visited file fails: it leads nowhere, or nowhere
      letter for letter, or back into the chain, or to a file that fails. */
  ghost predicate ImportFails(w: World, chain: seq<Path>, parts: seq<string>, e: ModuleError)
    requires chain != []
    decreases Unseen(w, chain), 2
  {
    match w.Resolve(parts)
    case Unresolvable => e == Unresolved(chain[|chain| - 1], parts)
    case Found(target, rooted) => VisitFails(w, chain, target, rooted, e)
  }

  ghost predicate VisitFails(w: World, chain: seq<Path>, path: Path, rooted: bool, e: ModuleError)
    decreases Unseen(w, chain), 1
  {
    if chain != [] && !rooted && path !in w.overlays then e == NotFound(chain[|chain| - 1], path)
    else if chain != [] && path in chain then e == ImportCycle(chain[|chain| - 1], path)
    else FileFails(w, chain, path, e)
  }

  ghost predicate AllSettled(w: World, chain: seq<Path>, requests: seq<seq<string>>) {
    forall j | 0 <= j < |requests| :: ImportSettled(w, chain, requests[j])
  }

  /** An import that leads, letter for letter, to a settled file outside the chain. */
  ghost predicate ImportSettled(w: World, chain: seq<Path>, parts: seq<string>) {
    w.Admits(parts) && w.Resolve(parts).path !in chain && Settled(w, w.Resolve(parts).path)
  }

  lemma SettledStep(w: World, p: Path, q: Path)
    requires Settled(w, p) && w.Edge(p, q)
    ensures Settled(w, q)
  {
    ReachSelf(w, p);
    ReachStep(w, p, p, q);
    forall r | w.Reach(q, r) ensures w.Reach(p, r) {
      ReachJoin(w, p, q, r);
    }
  }

  lemma ReachJoin(w: World, a: Path, b: Path, c: Path)
    requires w.Reach(a, b) && w.Reach(b, c)
    ensures w.Reach(a, c)
  {
    var first :| w.Chain(first) && first[0] == a && first[|first| - 1] == b;
    var second :| w.Chain(second) && second[0] == b && second[|second| - 1] == c;
    var whole := first + second[1..];
    forall k | 0 <= k < |whole| - 1 ensures w.Edge(whole[k], whole[k + 1]) {
      if k < |first| - 1 {
        assert w.Edge(first[k], first[k + 1]);
      } else {
        var m := k - (|first| - 1);
        assert w.Edge(second[m], second[m + 1]);
      }
    }
    assert w.Chain(whole) && whole[0] == a && whole[|whole| - 1] == c;
  }

  /** What a settled file is, for its own sake and for its imports. */
  lemma SettledMeans(w: World, path: Path, parts: seq<string>)
    requires Settled(w, path) && parts in w.Requests(path)
    ensures w.Good(path) && w.Admits(parts)
    ensures !w.Reach(w.Resolve(parts).path, path) && Settled(w, w.Resolve(parts).path)
  {
    ReachSelf(w, path);
    assert w.Good(path) && w.Edge(path, w.Resolve(parts).path);
    SettledStep(w, path, w.Resolve(parts).path);
  }

  lemma ProgramFails(w: World, chain: seq<Path>, path: Path, e: ModuleError)
    requires FileFails(w, chain, path, e) && path in w.files && w.files[path].Program?
    ensures path !in chain && SomeImportFails(w, chain + [path], e)
  {
    hide SomeImportFails;
  }

  lemma FailingImport(w: World, chain: seq<Path>, e: ModuleError) returns (k: nat)
    requires chain != [] && SomeImportFails(w, chain, e)
    ensures k < |w.Requests(chain[|chain| - 1])| && FirstToFail(w, chain, k, e)
    ensures ImportFails(w, chain, w.Requests(chain[|chain| - 1])[k], e)
  {
    k :| 0 <= k < |w.Requests(chain[|chain| - 1])| && FirstToFail(w, chain, k, e);
    hide ImportFails;
  }

  lemma OutsideFails(w: World, chain: seq<Path>, parts: seq<string>, e: ModuleError)
    requires chain != [] && ImportFails(w, chain, parts, e)
    requires w.Admits(parts) && w.Resolve(parts).path !in chain
    ensures FileFails(w, chain, w.Resolve(parts).path, e)
  {
    hide FileFails;
  }

  /** A file that fails is not settled, and neither is one with an import that fails. */
  lemma {:induction false} FailingIsUnsettled(w: World, chain: seq<Path>, path: Path, e: ModuleError)
    requires FileFails(w, chain, path, e) && w.Chain(chain + [path])
    ensures !Settled(w, path)
    decreases Unseen(w, chain), 1
  {
    if path !in w.files || !w.files[path].Program? {
      ReachSelf(w, path);
      assert !w.Good(path);
    } else {
      assert UnseenShrinks(w, chain, path);
      var inner := chain + [path];
      ProgramFails(w, chain, path, e);
      var k := FailingImport(w, inner, e);
      hide FileFails;
      ImportUnsettles(w, inner, w.Requests(path)[k], e);
    }
  }

  lemma {:induction false} ImportUnsettles(w: World, chain: seq<Path>, parts: seq<string>, e: ModuleError)
    requires chain != [] && w.Chain(chain) && parts in w.Requests(chain[|chain| - 1]) && ImportFails(w, chain, parts, e)
    ensures !Settled(w, chain[|chain| - 1])
    decreases Unseen(w, chain), 2
  {
    hide Settled;
    hide FileFails;
    hide Unseen;
    var path := chain[|chain| - 1];
    if Settled(w, path) {
      SettledMeans(w, path, parts);
      var target := w.Resolve(parts).path;
      assert w.Edge(path, target);
      if target in chain {
        var j :| 0 <= j < |chain| && chain[j] == target;
        ReachWithin(w, chain, j, |chain| - 1);
      } else {
        ChainSnoc(w, chain, target);
        FailingIsUnsettled(w, chain, target, e);
      }
    }
  }

  /** The defect reported is determined: it is the first that the search meets. */
  lemma {:induction false} OneFailure(w: World, chain: seq<Path>, path: Path, a: ModuleError, b: ModuleError)
    requires FileFails(w, chain, path, a) && FileFails(w, chain, path, b) && w.Chain(chain + [path])
    ensures a == b
    decreases Unseen(w, chain), 1
  {
    if path in w.files && w.files[path].Program? {
      assert UnseenShrinks(w, chain, path);
      var inner := chain + [path];
      ProgramFails(w, chain, path, a);
      ProgramFails(w, chain, path, b);
      var k := FailingImport(w, inner, a);
      var m := FailingImport(w, inner, b);
      hide FileFails;
      hide Unseen;
      NotPassed(w, inner, k, m, a, b);
      NotPassed(w, inner, m, k, b, a);
      OneImportFailure(w, inner, w.Requests(path)[k], a, b);
    }
  }

  lemma {:induction false} OneImportFailure(
      w: World, chain: seq<Path>, parts: seq<string>, a: ModuleError, b: ModuleError)
    requires chain != [] && w.Chain(chain) && parts in w.Requests(chain[|chain| - 1])
    requires ImportFails(w, chain, parts, a) && ImportFails(w, chain, parts, b)
    ensures a == b
    decreases Unseen(w, chain), 2
  {
    hide FileFails;
    hide Unseen;
    if w.Admits(parts) && w.Resolve(parts).path !in chain {
      var target := w.Resolve(parts).path;
      assert w.Edge(chain[|chain| - 1], target);
      ChainSnoc(w, chain, target);
      OneFailure(w, chain, target, a, b);
    }
  }

  /** The import that fails is not one that the search has passed. */
  lemma NotPassed(w: World, chain: seq<Path>, k: nat, m: nat, a: ModuleError, b: ModuleError)
    requires chain != [] && w.Chain(chain)
    requires k < |w.Requests(chain[|chain| - 1])| && FirstToFail(w, chain, k, a)
    requires ImportFails(w, chain, w.Requests(chain[|chain| - 1])[k], a)
    requires m < |w.Requests(chain[|chain| - 1])| && FirstToFail(w, chain, m, b)
    ensures m <= k
  {
    hide FileFails;
    hide Settled;
    var requests := w.Requests(chain[|chain| - 1]);
    if k < m {
      var parts := requests[k];
      assert requests[..m][k] == parts && ImportSettled(w, chain, parts);
      OutsideFails(w, chain, parts, a);
      var target := w.Resolve(parts).path;
      assert w.Edge(chain[|chain| - 1], target);
      ChainSnoc(w, chain, target);
      FailingIsUnsettled(w, chain, target, a);
    }
  }

  lemma FailsAtOnce(w: World, chain: seq<Path>, path: Path, rooted: bool, e: ModuleError)
    requires chain != []
    requires if !rooted && path !in w.overlays then e == NotFound(chain[|chain| - 1], path)
             else path in chain && e == ImportCycle(chain[|chain| - 1], path)
    ensures VisitFails(w, chain, path, rooted, e)
  {
    hide FileFails;
  }

  lemma FileFailsItself(w: World, chain: seq<Path>, path: Path, rooted: bool, e: ModuleError)
    requires (chain != [] ==> rooted || path in w.overlays) && path !in chain
    requires path !in w.files ==> e == if chain == [] then EntryNotFound(path) else NotFound(chain[|chain| - 1], path)
    requires path in w.files ==>
               || (w.files[path].LexFailure? && e == Lexical(path))
               || (w.files[path].ParseFailure? && e == Syntax(path))
               || (w.files[path].Program? && SomeImportFails(w, chain + [path], e))
    ensures VisitFails(w, chain, path, rooted, e)
  {
    hide SomeImportFails;
    hide Unseen;
    if path in w.files {
      assert UnseenShrinks(w, chain, path);
    }
  }

  lemma ImportFailsNext(w: World, chain: seq<Path>, items: seq<Item>, index: nat, e: ModuleError)
    requires chain != [] && w.Requests(chain[|chain| - 1]) == Followed(items)
    requires index < |items| && items[index].Import? && !IsHost(items[index].parts)
    requires AllSettled(w, chain, Followed(items[..index])) && ImportFails(w, chain, items[index].parts, e)
    ensures SomeImportFails(w, chain, e)
  {
    hide ImportFails;
    hide AllSettled;
    var k := |Followed(items[..index])|;
    FollowedStep(items, index);
    FollowedPrefix(items, index + 1);
    assert Followed(items)[k] == items[index].parts && Followed(items)[..k] == Followed(items[..index]);
    assert FirstToFail(w, chain, k, e);
  }

  lemma {:induction false} FollowedPrefix(items: seq<Item>, k: nat)
    requires k <= |items|
    ensures Followed(items[..k]) <= Followed(items)
    decreases |items|
  {
    if k == |items| {
      assert items[..k] == items;
    } else {
      FollowedPrefix(items[..|items| - 1], k);
      assert items[..|items| - 1][..k] == items[..k];
    }
  }

  /** The imports that are followed are those of a module that is not of the host, in
      the order of the file. */
  lemma {:induction false} FollowedAre(items: seq<Item>, parts: seq<string>)
    ensures parts in Followed(items) <==> Import(parts) in items && !(|parts| > 0 && parts[0] == "HOST")
    decreases |items|
  {
    if items != [] {
      var init, last := items[..|items| - 1], items[|items| - 1];
      FollowedAre(init, parts);
      assert items == init + [last];
    }
  }

  /** A module that is loaded is settled, and outside the chain still visited. */
  lemma LoadedIsSettled(
      w: World, entry: Path, states: map<Path, State>, modules: seq<LoadedModule>, chain: seq<Path>, i: nat)
    requires Inv(w, entry, states, modules, chain) && i < |modules|
    ensures Settled(w, modules[i].path) && modules[i].path !in chain
  {
    var p := modules[i].path;
    ModulesDiffer(states, modules, chain);
    forall q | w.Reach(p, q) ensures w.Good(q) {
      var j := ReachedIsLoaded(w, modules, i, q);
      assert ModuleOk(w, modules, j);
    }
    forall q, r | w.Reach(p, q) && w.Edge(q, r) ensures !w.Reach(r, q) {
      var j := ReachedIsLoaded(w, modules, i, q);
      var k := EdgeGoesDown(w, modules, j, r);
      if w.Reach(r, q) {
        var m := ReachedIsLoaded(w, modules, k, q);
      }
    }
  }

  lemma UnresolvedIsDefect(w: World, entry: Path, path: Path, parts: seq<string>)
    requires w.Reach(entry, path) && parts in w.Requests(path) && w.Resolve(parts).Unresolvable?
    ensures Defect(w, entry, Unresolved(path, parts))
  {
  }

  /** An import that no root holds letter for letter spoils its importer. */
  lemma NotAdmitted(w: World, entry: Path, importer: Path, path: Path)
    requires w.Reach(entry, importer) && path !in w.overlays
    requires exists parts :: parts in w.Requests(importer) && w.Resolve(parts) == Found(path, false)
    ensures Defect(w, entry, NotFound(importer, path))
  {
    var parts :| parts in w.Requests(importer) && w.Resolve(parts) == Found(path, false);
    assert !w.Admits(parts) && w.Edge(importer, path);
  }

  lemma Missing(w: World, entry: Path, importer: Option<Path>, path: Path)
    requires path !in w.files
    requires importer.None? ==> path == entry
    requires importer.Some? ==> w.Reach(entry, importer.value) && w.Edge(importer.value, path)
    ensures Defect(w, entry, if importer.Some? then NotFound(importer.value, path) else EntryNotFound(path))
  {
  }

  lemma Unparsed(w: World, entry: Path, path: Path)
    requires w.Reach(entry, path) && path in w.files && !w.files[path].Program?
    ensures Defect(w, entry, if w.files[path].LexFailure? then Lexical(path) else Syntax(path))
  {
  }

  lemma DefectRefutes(w: World, entry: Path, e: ModuleError)
    requires Defect(w, entry, e)
    ensures !w.Loadable(entry)
  {
    match e
    case EntryNotFound(p) => ReachSelf(w, entry);
    case NotFound(i, p) => ReachStep(w, entry, i, p);
    case _ =>
  }

  /** A Visiting file reached again closes a cycle through its importer. */
  lemma VisitingClosesCycle(w: World, entry: Path, chain: seq<Path>, p: Path)
    requires w.Chain(chain) && chain[0] == entry && p in chain
    requires w.Edge(chain[|chain| - 1], p)
    ensures Defect(w, entry, ImportCycle(chain[|chain| - 1], p))
  {
    var j :| 0 <= j < |chain| && chain[j] == p;
    ReachWithin(w, chain, j, |chain| - 1);
    ReachWithin(w, chain, 0, |chain| - 1);
  }

  ghost function PathsOf(modules: seq<LoadedModule>): set<Path> {
    set i | 0 <= i < |modules| :: modules[i].path
  }

  lemma DistinctPaths(modules: seq<LoadedModule>, n: nat)
    requires n <= |modules|
    requires forall i, j | 0 <= i < j < |modules| :: modules[i].path != modules[j].path
    ensures |PathsOf(modules[..n])| == n
  {
    if n > 0 {
      DistinctPaths(modules, n - 1);
      assert PathsOf(modules[..n]) == PathsOf(modules[..n - 1]) + {modules[n - 1].path};
    }
  }

  lemma ModulesDiffer(states: map<Path, State>, modules: seq<LoadedModule>, chain: seq<Path>)
    requires MarksOk(states, modules, chain)
    ensures forall i, j | 0 <= i < j < |modules| :: modules[i].path != modules[j].path
  {
    forall i, j | 0 <= i < j < |modules| ensures modules[i].path != modules[j].path {
      assert states[modules[i].path] == Loaded(i) && states[modules[j].path] == Loaded(j);
    }
  }

  lemma MarksAreDistinct(states: map<Path, State>, modules: seq<LoadedModule>, chain: seq<Path>, p: Path)
    requires MarksOk(states, modules, chain) && p in chain
    ensures |PathsOf(modules)| == |modules| && p !in PathsOf(modules)
  {
    ModulesDiffer(states, modules, chain);
    assert modules[..|modules|] == modules;
    DistinctPaths(modules, |modules|);
  }

  lemma ModulesAreReached(w: World, entry: Path, modules: seq<LoadedModule>)
    requires ModulesOk(w, entry, modules)
    ensures w.AllReached(entry, PathsOf(modules))
  {
    forall q <- PathsOf(modules) ensures w.Reach(entry, q) {
      var i :| 0 <= i < |modules| && modules[i].path == q;
      assert ModuleOk(w, modules, i);
    }
  }

  /** A file past the module limit shows more than `MODULE_LIMIT` reachable files. */
  lemma TooManyReached(w: World, entry: Path, paths: set<Path>, p: Path)
    requires w.AllReached(entry, paths) && w.Reach(entry, p) && p !in paths && |paths| == MODULE_LIMIT
    ensures w.TooMany(entry)
  {
    var more := paths + {p};
    assert |more| == |paths| + 1;
    assert w.AllReached(entry, more);
  }

  lemma FullGraphIsDefect(w: World, entry: Path, states: map<Path, State>, modules: seq<LoadedModule>, chain: seq<Path>)
    requires Inv(w, entry, states, modules, chain) && chain != [] && |modules| >= MODULE_LIMIT
    ensures Defect(w, entry, ModuleLimit(chain[|chain| - 1]))
  {
    var p := chain[|chain| - 1];
    ReachWithin(w, chain, 0, |chain| - 1);
    MarksAreDistinct(states, modules, chain, p);
    ModulesAreReached(w, entry, modules);
    TooManyReached(w, entry, PathsOf(modules), p);
  }

  lemma ModulesGrow(w: World, modules: seq<LoadedModule>, more: seq<LoadedModule>)
    requires modules <= more
    requires forall i | 0 <= i < |modules| :: ModuleOk(w, modules, i)
    ensures forall i | 0 <= i < |modules| :: ModuleOk(w, more, i)
  {
    forall i | 0 <= i < |modules| ensures ModuleOk(w, more, i) {
      assert ModuleOk(w, modules, i);
    }
  }

  lemma ImportsGrow(
      w: World, modules: seq<LoadedModule>, more: seq<LoadedModule>, requests: seq<seq<string>>,
      imports: seq<nat>, parts: seq<string>, id: nat)
    requires ImportsOk(w, modules, |modules|, requests, imports)
    requires modules <= more && id < |more|
    requires w.Admits(parts) && more[id].path == w.Resolve(parts).path
    ensures ImportsOk(w, more, |more|, requests + [parts], imports + [id])
  {
  }

  // ----- the loader ------------------------------------------------------------

  class Loader {
    const w: World
    ghost const entry: Path
    var states: map<Path, State>
    var modules: seq<LoadedModule>

    constructor (w: World, ghost entry: Path)
      ensures this.w == w && this.entry == entry && states == map[] && modules == []
    {
      this.w := w;
      this.entry := entry;
      states := map[];
      modules := [];
    }

    ghost predicate Valid(chain: seq<Path>)
      reads this
    {
      Inv(w, entry, states, modules, chain)
    }

    method Visit(path: Path, importer: Option<Path>, rooted: bool, ghost chain: seq<Path>)
      returns (r: Result<nat, ModuleError>)
      requires Valid(chain)
      requires importer == if chain == [] then None else Some(chain[|chain| - 1])
      requires if chain == [] then path == entry && states == map[]
               else exists parts :: parts in w.Requests(chain[|chain| - 1]) && w.Resolve(parts) == Found(path, rooted)
      modifies this
      ensures r.Success? ==>
                && Valid(chain)
                && old(modules) <= modules
                && old(states.Keys) <= states.Keys
                && r.value < |modules| && modules[r.value].path == path
                && (importer.None? ==> r.value == |modules| - 1)
                && Paths(modules) == PostOrder(w, Paths(old(modules)), Unseen(w, chain), path)
                && (importer.Some? ==> rooted || path in w.overlays)
      ensures r.Failure? ==> Defect(w, entry, r.error)
      ensures r.Failure? ==> r.error.ModuleLimit? || VisitFails(w, chain, path, rooted, r.error)
      decreases w.files.Keys - states.Keys, 0
    {
      hide FileFails;
      hide VisitFails;
      hide SomeImportFails;
      hide Inv;
      hide Defect;
      hide PostOrder;
      hide Paths;
      ReachHere(w, entry, states, modules, chain, path);
      if !rooted && importer.Some? && path !in w.overlays {
        NotAdmitted(w, entry, importer.value, path);
        FailsAtOnce(w, chain, path, rooted, NotFound(importer.value, path));
        return Failure(NotFound(importer.value, path));
      }
      if path in states {
        Marked(w, entry, states, modules, chain, path);
        match states[path]
        case Loaded(id) =>
          OrderOfDone(w, modules, Unseen(w, chain), id);
          return Success(id);
        case Visiting =>
          VisitingClosesCycle(w, entry, chain, path);
          FailsAtOnce(w, chain, path, rooted, ImportCycle(importer.value, path));
          return Failure(ImportCycle(importer.value, path));
      }
      NotVisited(w, entry, states, modules, chain, path);
      if path !in w.files {
        Missing(w, entry, importer, path);
        var e := if importer.Some? then NotFound(importer.value, path) else EntryNotFound(path);
        FileFailsItself(w, chain, path, rooted, e);
        return Failure(e);
      }
      var source := w.files[path];
      if source.LexFailure? {
        Unparsed(w, entry, path);
        FileFailsItself(w, chain, path, rooted, Lexical(path));
        return Failure(Lexical(path));
      }
      if source.ParseFailure? {
        Unparsed(w, entry, path);
        FileFailsItself(w, chain, path, rooted, Syntax(path));
        return Failure(Syntax(path));
      }
      NotYetDone(w, entry, states, modules, chain, path);
      Begin(w, entry, states, modules, chain, path);
      states := states[path := Visiting];
      ghost var inner := chain + [path];
      assert path in w.files.Keys - old(states.Keys) && path !in w.files.Keys - states.Keys;
      var visited := VisitImports(path, inner);
      if visited.Failure? {
        if !visited.error.ModuleLimit? {
          FileFailsItself(w, chain, path, rooted, visited.error);
        }
        return Failure(visited.error);
      }
      var imports := visited.value;
      if |modules| >= MODULE_LIMIT {
        FullGraphIsDefect(w, entry, states, modules, inner);
        return Failure(ModuleLimit(path));
      }
      var id := |modules|;
      OrderOfFinished(w, Paths(old(modules)), chain, path, modules, LoadedModule(id, path, imports));
      Finish(w, entry, states, modules, chain, path, imports);
      states := states[path := Loaded(id)];
      modules := modules + [LoadedModule(id, path, imports)];
      return Success(id);
    }

    /** The loop of a visit: every followed import, in file order. */
    method VisitImports(path: Path, ghost chain: seq<Path>) returns (r: Result<seq<nat>, ModuleError>)
      requires Valid(chain) && chain != [] && chain[|chain| - 1] == path
      requires path in w.files && w.files[path].Program?
      modifies this
      ensures r.Success? ==>
                && Valid(chain)
                && old(modules) <= modules
                && old(states.Keys) <= states.Keys
                && ImportsOk(w, modules, |modules|, w.Requests(path), r.value)
                && Paths(modules) == PostOrderAll(w, Paths(old(modules)), Unseen(w, chain), w.Requests(path))
      ensures r.Failure? ==> Defect(w, entry, r.error)
      ensures r.Failure? ==> r.error.ModuleLimit? || SomeImportFails(w, chain, r.error)
      decreases w.files.Keys - states.Keys, 1
    {
      hide AllSettled;
      hide ImportSettled;
      hide SomeImportFails;
      hide VisitFails;
      hide Inv;
      hide ImportsOk;
      hide Defect;
      hide PostOrder;
      hide PostOrderAll;
      hide Paths;
      hide Unseen;
      var items := w.files[path].items;
      assert w.Requests(path) == Followed(items);
      NothingFollowed(w, entry, states, modules, chain);
      var imports: seq<nat> := [];
      ghost var requests: seq<seq<string>> := [];
      var index := 0;
      while index < |items|
        invariant 0 <= index <= |items|
        invariant Valid(chain)
        invariant old(modules) <= modules
        invariant old(states.Keys) <= states.Keys
        invariant requests == Followed(items[..index])
        invariant ImportsOk(w, modules, |modules|, requests, imports)
        invariant AllSettled(w, chain, requests)
        invariant Paths(modules) == PostOrderAll(w, Paths(old(modules)), Unseen(w, chain), requests)
      {
        FollowedStep(items, index);
        var item := items[index];
        if item.Import? && !IsHost(item.parts) {
          FollowedIn(items, index);
          match w.Resolve(item.parts)
          case Unresolvable =>
            UnresolvedIsDefect(w, entry, path, item.parts);
            ImportFailsNext(w, chain, items, index, Unresolved(path, item.parts));
            return Failure(Unresolved(path, item.parts));
          case Found(target, root) =>
            ghost var before := modules;
            var visited := Visit(target, Some(path), root, chain);
            if visited.Failure? {
              if !visited.error.ModuleLimit? {
                ImportFailsNext(w, chain, items, index, visited.error);
              }
              return Failure(visited.error);
            }
            var id := visited.value;
            LoadedIsSettled(w, entry, states, modules, chain, id);
            SettledSnoc(w, chain, requests, item.parts);
            ImportsGrow(w, before, modules, requests, imports, item.parts, id);
            OrderOfNext(w, Paths(old(modules)), Unseen(w, chain), requests, item.parts);
            imports, requests := imports + [id], requests + [item.parts];
        }
        index := index + 1;
      }
      assert items[..index] == items;
      return Success(imports);
    }
  }

  lemma ReachHere(
      w: World, entry: Path, states: map<Path, State>, modules: seq<LoadedModule>, chain: seq<Path>, path: Path)
    requires Inv(w, entry, states, modules, chain)
    requires if chain == [] then path == entry else w.Edge(chain[|chain| - 1], path)
    ensures w.Reach(entry, path)
    ensures chain != [] ==> w.Reach(entry, chain[|chain| - 1])
  {
    if chain == [] {
      ReachSelf(w, entry);
    } else {
      ReachWithin(w, chain, 0, |chain| - 1);
      ReachStep(w, entry, chain[|chain| - 1], path);
    }
  }

  lemma NotVisited(
      w: World, entry: Path, states: map<Path, State>, modules: seq<LoadedModule>, chain: seq<Path>, path: Path)
    requires Inv(w, entry, states, modules, chain) && path !in states
    ensures path !in chain
  {
  }

  lemma SettledSnoc(w: World, chain: seq<Path>, requests: seq<seq<string>>, parts: seq<string>)
    requires AllSettled(w, chain, requests)
    requires w.Admits(parts) && w.Resolve(parts).path !in chain && Settled(w, w.Resolve(parts).path)
    ensures AllSettled(w, chain, requests + [parts])
  {
    hide Settled;
  }

  lemma NothingFollowed(w: World, entry: Path, states: map<Path, State>, modules: seq<LoadedModule>, chain: seq<Path>)
    requires Inv(w, entry, states, modules, chain) && chain != []
    ensures w.Reach(entry, chain[|chain| - 1])
    ensures ImportsOk(w, modules, |modules|, [], []) && AllSettled(w, chain, [])
    ensures PostOrderAll(w, Paths(modules), Unseen(w, chain), []) == Paths(modules)
  {
    ReachWithin(w, chain, 0, |chain| - 1);
  }

  lemma NotYetDone(
      w: World, entry: Path, states: map<Path, State>, modules: seq<LoadedModule>, chain: seq<Path>, path: Path)
    requires Inv(w, entry, states, modules, chain) && path !in states && path in w.files
    ensures path !in Paths(modules) && path in Unseen(w, chain)
  {
  }

  lemma Marked(
      w: World, entry: Path, states: map<Path, State>, modules: seq<LoadedModule>, chain: seq<Path>, path: Path)
    requires Inv(w, entry, states, modules, chain) && path in states
    ensures states[path].Loaded? ==> states[path].id < |modules| && modules[states[path].id].path == path
    ensures states[path].Visiting? ==> path in chain && w.Chain(chain) && chain[0] == entry
  {
  }

  lemma ChainSnoc(w: World, chain: seq<Path>, path: Path)
    requires chain != [] ==> w.Chain(chain) && w.Edge(chain[|chain| - 1], path)
    ensures w.Chain(chain + [path])
    ensures forall p :: p in chain + [path] <==> p in chain || p == path
  {
  }

  /** Marking a new file Visiting extends the chain. */
  lemma Begin(w: World, entry: Path, states: map<Path, State>, modules: seq<LoadedModule>, chain: seq<Path>, path: Path)
    requires Inv(w, entry, states, modules, chain) && path !in states
    requires if chain == [] then path == entry else w.Edge(chain[|chain| - 1], path)
    ensures Inv(w, entry, states[path := Visiting], modules, chain + [path])
    ensures path !in chain
  {
    ChainSnoc(w, chain, path);
    hide ModulesOk;
    assert MarksOk(states[path := Visiting], modules, chain + [path]);
  }

  lemma FinishMarks(states: map<Path, State>, modules: seq<LoadedModule>, chain: seq<Path>, m: LoadedModule)
    requires MarksOk(states, modules, chain + [m.path]) && m.path !in chain
    ensures MarksOk(states[m.path := Loaded(|modules|)], modules + [m], chain)
  {
    var inner := chain + [m.path];
    assert inner[|chain|] == m.path && m.path in inner;
    assert forall p :: p in inner <==> p in chain || p == m.path;
  }

  lemma FinishModules(w: World, entry: Path, modules: seq<LoadedModule>, m: LoadedModule)
    requires ModulesOk(w, entry, modules) && w.Reach(entry, m.path) && m.id == |modules|
    requires m.path in w.files && w.files[m.path].Program?
    requires ImportsOk(w, modules, |modules|, w.Requests(m.path), m.imports)
    ensures ModulesOk(w, entry, modules + [m])
  {
    ModulesGrow(w, modules, modules + [m]);
    assert w.Good(m.path);
    assert ModuleOk(w, modules + [m], |modules|);
  }

  lemma ChainInit(w: World, chain: seq<Path>, path: Path)
    requires w.Chain(chain + [path]) && chain != []
    ensures w.Chain(chain) && (chain + [path])[0] == chain[0]
  {
    var inner := chain + [path];
    assert inner[..|chain|] == chain;
    forall k | 0 <= k < |chain| - 1 ensures w.Edge(chain[k], chain[k + 1]) {
      assert w.Edge(inner[k], inner[k + 1]);
    }
  }

  /** Marking the innermost visited file Loaded keeps the invariant. */
  lemma Finish(
      w: World, entry: Path, states: map<Path, State>, modules: seq<LoadedModule>, chain: seq<Path>,
      path: Path, imports: seq<nat>)
    requires Inv(w, entry, states, modules, chain + [path]) && |modules| < MODULE_LIMIT
    requires path !in chain
    requires path in w.files && w.files[path].Program?
    requires ImportsOk(w, modules, |modules|, w.Requests(path), imports)
    ensures Inv(w, entry, states[path := Loaded(|modules|)], modules + [LoadedModule(|modules|, path, imports)], chain)
  {
    var m := LoadedModule(|modules|, path, imports);
    ReachWithin(w, chain + [path], 0, |chain|);
    hide MarksOk;
    hide ModulesOk;
    FinishMarks(states, modules, chain, m);
    FinishModules(w, entry, modules, m);
    if chain != [] {
      ChainInit(w, chain, path);
    }
  }

  // ----- the whole load ----------------------------------------------------------

  /** The promise of a loaded graph: ids are positions, every import is an
      earlier module at its resolved path, each path occurs once, the root is
      last, and the modules are exactly the files reachable from the entry. */
  ghost predicate GraphOk(w: World, entry: Path, g: Graph) {
    && |g.modules| > 0
    && g.root == |g.modules| - 1
    && g.modules[g.root].path == entry
    && (forall i | 0 <= i < |g.modules| :: ModuleOk(w, g.modules, i))
    && (forall i, j | 0 <= i < j < |g.modules| :: g.modules[i].path != g.modules[j].path)
    && (forall p :: p in PathsOf(g.modules) <==> w.Reach(entry, p))
    && Paths(g.modules) == PostOrder(w, [], w.files.Keys, entry)
    && |g.modules| <= MODULE_LIMIT
  }

  /** Along an edge out of a loaded module lies a module with a smaller id. */
  lemma EdgeGoesDown(w: World, modules: seq<LoadedModule>, i: nat, q: Path) returns (j: nat)
    requires i < |modules| && ModuleOk(w, modules, i) && w.Edge(modules[i].path, q)
    ensures j < i && modules[j].path == q
  {
    var requests := w.Requests(modules[i].path);
    var parts :| parts in requests && w.Resolve(parts).Found? && w.Resolve(parts).path == q;
    var k :| 0 <= k < |requests| && requests[k] == parts;
    j := modules[i].imports[k];
  }

  lemma {:induction false} ChainGoesDown(
      w: World, modules: seq<LoadedModule>, i: nat, chain: seq<Path>) returns (j: nat)
    requires forall i | 0 <= i < |modules| :: ModuleOk(w, modules, i)
    requires i < |modules| && w.Chain(chain) && chain[0] == modules[i].path
    ensures j <= i && modules[j].path == chain[|chain| - 1]
    decreases |chain|
  {
    if |chain| == 1 {
      j := i;
    } else {
      assert w.Edge(chain[0], chain[1]);
      var next := EdgeGoesDown(w, modules, i, chain[1]);
      assert w.Chain(chain[1..]) by {
        forall k | 0 <= k < |chain[1..]| - 1 ensures w.Edge(chain[1..][k], chain[1..][k + 1]) {
          assert w.Edge(chain[k + 1], chain[k + 2]);
        }
      }
      j := ChainGoesDown(w, modules, next, chain[1..]);
    }
  }

  lemma ReachedIsLoaded(w: World, modules: seq<LoadedModule>, i: nat, p: Path) returns (j: nat)
    requires forall i | 0 <= i < |modules| :: ModuleOk(w, modules, i)
    requires i < |modules| && w.Reach(modules[i].path, p)
    ensures j <= i && modules[j].path == p
  {
    var chain :| w.Chain(chain) && chain[0] == modules[i].path && chain[|chain| - 1] == p;
    j := ChainGoesDown(w, modules, i, chain);
  }

  /** Every loaded graph is a proof that its program could load. */
  lemma GraphIsLoadable(w: World, entry: Path, g: Graph)
    requires GraphOk(w, entry, g)
    ensures w.Loadable(entry)
  {
    forall p | w.Reach(entry, p) ensures w.Good(p) {
      var i := ReachedIsLoaded(w, g.modules, g.root, p);
      assert ModuleOk(w, g.modules, i);
    }
    forall p, q | w.Reach(entry, p) && w.Edge(p, q) ensures !w.Reach(q, p) {
      var i := ReachedIsLoaded(w, g.modules, g.root, p);
      var j := EdgeGoesDown(w, g.modules, i, q);
      if w.Reach(q, p) {
        var k := ReachedIsLoaded(w, g.modules, j, p);
      }
    }
    DistinctPaths(g.modules, |g.modules|);
    assert g.modules[..|g.modules|] == g.modules;
    forall paths | w.AllReached(entry, paths) ensures |paths| <= MODULE_LIMIT {
      assert paths <= PathsOf(g.modules);
      SubsetSize(paths, PathsOf(g.modules));
    }
  }

  lemma StartsEmpty(w: World, entry: Path)
    ensures Inv(w, entry, map[], [], []) && Paths([]) == [] && Unseen(w, []) == w.files.Keys
  {
  }

  lemma FinishedGraph(w: World, entry: Path, states: map<Path, State>, modules: seq<LoadedModule>)
    requires Inv(w, entry, states, modules, []) && modules != [] && modules[|modules| - 1].path == entry
    requires Paths(modules) == PostOrder(w, [], w.files.Keys, entry)
    ensures GraphOk(w, entry, Graph(|modules| - 1, modules))
  {
    hide PostOrder;
    hide ModuleOk;
    hide PathsOf;
    hide Paths;
    ModulesDiffer(states, modules, []);
    ReachedExactly(w, entry, modules);
  }

  lemma ReachedExactly(w: World, entry: Path, modules: seq<LoadedModule>)
    requires ModulesOk(w, entry, modules) && modules != [] && modules[|modules| - 1].path == entry
    ensures forall p :: p in PathsOf(modules) <==> w.Reach(entry, p)
  {
    hide ModulesOk;
    hide PathsOf;
    hide World.Reach;
    ModulesAreReached(w, entry, modules);
    forall p | w.Reach(entry, p) ensures p in PathsOf(modules) {
      ReachedIsListed(w, entry, modules, p);
    }
  }

  lemma ReachedIsListed(w: World, entry: Path, modules: seq<LoadedModule>, p: Path)
    requires ModulesOk(w, entry, modules) && modules != [] && modules[|modules| - 1].path == entry
    requires w.Reach(entry, p)
    ensures p in PathsOf(modules)
  {
    assert forall i | 0 <= i < |modules| :: ModuleOk(w, modules, i);
    hide ModulesOk;
    hide ModuleOk;
    hide World.Reach;
    var i := ReachedIsLoaded(w, modules, |modules| - 1, p);
  }

  /** Loading succeeds exactly on the loadable programs, and a failure names a
      defect of a reachable file: short of the module limit, the one that the
      search meets first. */
  method Load(w: World, entry: Path) returns (r: Result<Graph, ModuleError>)
    ensures r.Success? <==> w.Loadable(entry)
    ensures r.Success? ==> GraphOk(w, entry, r.value)
    ensures r.Failure? ==> Defect(w, entry, r.error)
    ensures r.Failure? ==> r.error.ModuleLimit? || FileFails(w, [], entry, r.error)
  {
    hide FileFails;
    hide Inv;
    hide GraphOk;
    hide Defect;
    hide PostOrder;
    StartsEmpty(w, entry);
    var loader := new Loader(w, entry);
    var visited := loader.Visit(entry, None, false, []);
    if visited.Failure? {
      DefectRefutes(w, entry, visited.error);
      return Failure(visited.error);
    }
    var g := Graph(visited.value, loader.modules);
    FinishedGraph(w, entry, loader.states, loader.modules);
    GraphIsLoadable(w, entry, g);
    return Success(g);
  }
}
