/** Diagnostic entries and specs: the validation done when a catalog is loaded
    and when a spec is rendered, and that together they make rendering total. */
module Diagnostics {
  import opened Wrappers
  import opened Counting
  import opened Text
  import opened Templates

  type DiagId = nat

  datatype ArgumentSpec = ArgumentSpec(name: string, kind: ArgumentKind)

  type Schema = seq<ArgumentSpec>

  datatype Style = Primary | Secondary

  datatype Label = Label(span: nat, style: Style, text: Option<string>)

  datatype CatalogEntry = CatalogEntry(
    id: DiagId,
    code: string,
    title: string,
    message: string,
    primary: Option<string>,
    secondary: Option<string>,
    causes: seq<string>,
    help: Option<string>)

  datatype DiagnosticSpec = DiagnosticSpec(id: DiagId, args: Arguments, labels: seq<Label>)

  datatype Rendered = Rendered(
    code: string,
    title: string,
    message: string,
    labels: seq<Label>,
    causes: seq<string>,
    help: Option<string>)

  /** The identifiers the program knows, with the arguments each takes. */
  type Registry = map<DiagId, Schema>

  type Catalog = map<DiagId, CatalogEntry>

  // ----- entries ---------------------------------------------------------------------------

  function Listed(text: Option<string>): seq<string> {
    if text.Some? then [text.value] else []
  }

  /** The patterns of an entry, in the order they are checked. */
  function Patterns(e: CatalogEntry): seq<string> {
    [e.message, e.title] + Listed(e.primary) + Listed(e.secondary) + e.causes + Listed(e.help)
  }

  predicate InSchema(schema: Schema, name: string) {
    exists a <- schema :: a.name == name
  }

  predicate PatternOk(schema: Schema, pattern: string) {
    Pieces(pattern).Some? && forall name <- NamesOf(pattern) :: InSchema(schema, name)
  }

  predicate EntryOk(schema: Schema, e: CatalogEntry) {
    forall pattern <- Patterns(e) :: PatternOk(schema, pattern)
  }

  method ValidateCatalogEntry(schema: Schema, e: CatalogEntry) returns (ok: bool)
    ensures ok <==> EntryOk(schema, e)
  {
    hide PatternOk;
    var patterns := Patterns(e);
    for i := 0 to |patterns|
      invariant forall k | 0 <= k < i :: PatternOk(schema, patterns[k])
    {
      var valid := ValidatePattern(schema, patterns[i]);
      if !valid {
        return false;
      }
    }
    return true;
  }

  method ValidatePattern(schema: Schema, pattern: string) returns (ok: bool)
    ensures ok <==> PatternOk(schema, pattern)
  {
    var arguments := PatternArguments(pattern);
    if arguments.Failure? {
      return false;
    }
    for i := 0 to |arguments.value|
      invariant forall k | 0 <= k < i :: InSchema(schema, arguments.value[k])
    {
      if !InSchema(schema, arguments.value[i]) {
        return false;
      }
    }
    return true;
  }

  // ----- arguments --------------------------------------------------------------------------

  datatype ArgumentError =
    | Duplicate(name: string)
    | Unknown(name: string)
    | WrongKind(name: string)
    | Missing(name: string)

  /** The kind of the first schema argument with a name. */
  function KindOf(schema: Schema, name: string): (r: Option<ArgumentKind>)
    ensures r.Some? <==> InSchema(schema, name)
  {
    if schema == [] then None
    else if schema[0].name == name then Some(schema[0].kind)
    else KindOf(schema[1..], name)
  }

  predicate Distinct(args: Arguments) {
    forall i, j | 0 <= i < j < |args| :: args[i].0 != args[j].0
  }

  /** The arguments are the schema's, each given once with its kind. */
  predicate ArgumentsOk(schema: Schema, args: Arguments) {
    && Distinct(args)
    && (forall a <- args :: KindOf(schema, a.0) == Some(a.1.Kind()))
    && (forall a <- schema :: Lookup(args, a.name).Some?)
  }

  /** An error is one the arguments really have. */
  predicate HasError(schema: Schema, args: Arguments, e: ArgumentError) {
    match e
    case Duplicate(name) => exists i, j :: 0 <= i < j < |args| && args[i].0 == name == args[j].0
    case Unknown(name) => Lookup(args, name).Some? && !InSchema(schema, name)
    case WrongKind(name) =>
      exists a <- args :: a.0 == name && KindOf(schema, name).Some? && KindOf(schema, name) != Some(a.1.Kind())
    case Missing(name) => InSchema(schema, name) && Lookup(args, name).None?
  }

  lemma ListedInSchema(schema: Schema, i: nat)
    requires i < |schema|
    ensures schema[i] in schema && InSchema(schema, schema[i].name)
  {
    assert schema[i] in schema;
  }

  method ValidateArguments(schema: Schema, args: Arguments) returns (r: Option<ArgumentError>)
    ensures r.None? <==> ArgumentsOk(schema, args)
    ensures r.Some? ==> HasError(schema, args, r.value)
  {
    hide KindOf;
    hide InSchema;
    hide Lookup;
    var seen: set<string> := {};
    for i := 0 to |args|
      invariant forall name :: name in seen <==> exists k :: 0 <= k < i && args[k].0 == name
      invariant Distinct(args[..i])
      invariant forall k | 0 <= k < i :: KindOf(schema, args[k].0) == Some(args[k].1.Kind())
    {
      var (name, value) := args[i];
      assert args[i] in args;
      if name in seen {
        return Some(Duplicate(name));
      }
      seen := seen + {name};
      var expected := KindOf(schema, name);
      if expected.None? {
        return Some(Unknown(name));
      }
      if value.Kind() != expected.value {
        return Some(WrongKind(name));
      }
    }
    assert args[..|args|] == args;
    for i := 0 to |schema|
      invariant forall k | 0 <= k < i :: schema[k].name in seen
    {
      if schema[i].name !in seen {
        ListedInSchema(schema, i);
        return Some(Missing(schema[i].name));
      }
    }
    forall a <- schema ensures Lookup(args, a.name).Some? {
      var k :| 0 <= k < |args| && args[k].0 == a.name;
      assert args[k] in args;
    }
    return None;
  }

  // ----- rendering -----------------------------------------------------------------------------

  datatype RenderError = BadArguments | NoEntry | BadTemplate(error: TemplateError)

  function Fill(pattern: string, args: Arguments): Result<string, RenderError> {
    var r := Expand(pattern, args);
    if r.Success? then Success(r.value) else Failure(BadTemplate(r.error))
  }

  function FillOption(pattern: Option<string>, args: Arguments): Result<Option<string>, RenderError> {
    if pattern.None? then Success(None)
    else
      var text :- Fill(pattern.value, args);
      Success(Some(text))
  }

  function FillAll(patterns: seq<string>, args: Arguments): Result<seq<string>, RenderError> {
    if patterns == [] then Success([])
    else
      var first :- Fill(patterns[0], args);
      var rest :- FillAll(patterns[1..], args);
      Success([first] + rest)
  }

  /** A label keeps its own text; without one it takes the entry's pattern. */
  function RenderLabel(e: CatalogEntry, hint: Label, args: Arguments): Result<Label, RenderError> {
    if hint.text.Some? then Success(hint)
    else
      var text :- FillOption(if hint.style.Primary? then e.primary else e.secondary, args);
      Success(hint.(text := text))
  }

  function RenderLabels(e: CatalogEntry, labels: seq<Label>, args: Arguments): Result<seq<Label>, RenderError> {
    if labels == [] then Success([])
    else
      var first :- RenderLabel(e, labels[0], args);
      var rest :- RenderLabels(e, labels[1..], args);
      Success([first] + rest)
  }

  function Render(registry: Registry, catalog: Catalog, spec: DiagnosticSpec): Result<Rendered, RenderError>
    requires spec.id in registry
  {
    if !ArgumentsOk(registry[spec.id], spec.args) then Failure(BadArguments)
    else if spec.id !in catalog then Failure(NoEntry)
    else
      var e := catalog[spec.id];
      var message :- Fill(e.message, spec.args);
      var causes :- FillAll(e.causes, spec.args);
      var help :- FillOption(e.help, spec.args);
      var labels :- RenderLabels(e, spec.labels, spec.args);
      var title :- Fill(e.title, spec.args);
      Success(Rendered(e.code, title, message, labels, causes, help))
  }

  // ----- rendering is total -------------------------------------------------------------------

  /** A pattern with every argument replaced at once. */
  function FilledPattern(pattern: string, args: Arguments): string {
    if Pieces(pattern).Some? then Filled(Pieces(pattern).value, args) else []
  }

  /** A validated pattern, filled with validated arguments, is simultaneous
      replacement. */
  lemma FillSucceeds(schema: Schema, pattern: string, args: Arguments)
    requires PatternOk(schema, pattern) && ArgumentsOk(schema, args)
    ensures Fill(pattern, args) == Success(FilledPattern(pattern, args))
  {
    ExpandIsSimultaneous(pattern, args);
    forall name <- NamesOf(pattern) ensures Lookup(args, name).Some? {
      assert InSchema(schema, name);
    }
  }

  lemma {:induction false} FillAllSucceeds(schema: Schema, patterns: seq<string>, args: Arguments)
    requires (forall p <- patterns :: PatternOk(schema, p)) && ArgumentsOk(schema, args)
    ensures FillAll(patterns, args).Success?
    ensures var r := FillAll(patterns, args).value;
            |r| == |patterns| && forall i | 0 <= i < |r| :: r[i] == FilledPattern(patterns[i], args)
  {
    if patterns != [] {
      hide *;
      FillSucceeds(schema, patterns[0], args);
      FillAllSucceeds(schema, patterns[1..], args);
      FillAllStep(patterns, args);
    }
  }

  lemma FillAllStep(patterns: seq<string>, args: Arguments)
    requires patterns != [] && Fill(patterns[0], args).Success? && FillAll(patterns[1..], args).Success?
    ensures FillAll(patterns, args) == Success([Fill(patterns[0], args).value] + FillAll(patterns[1..], args).value)
  {
  }

  lemma PatternsCover(schema: Schema, e: CatalogEntry)
    requires EntryOk(schema, e)
    ensures PatternOk(schema, e.message) && PatternOk(schema, e.title)
    ensures forall p <- e.causes :: PatternOk(schema, p)
    ensures forall o <- [e.primary, e.secondary, e.help] | o.Some? :: PatternOk(schema, o.value)
  {
    hide PatternOk;
    var all := Patterns(e);
    assert all[0] == e.message && all[1] == e.title;
    assert forall p <- Listed(e.primary) + Listed(e.secondary) + e.causes + Listed(e.help) :: p in all;
    forall o <- [e.primary, e.secondary, e.help] | o.Some? ensures PatternOk(schema, o.value) {
      assert Listed(o)[0] == o.value;
    }
  }

  /** What a rendered label says: its own text, or the entry's pattern for its
      style filled in, or nothing. */
  function LabelText(e: CatalogEntry, hint: Label, args: Arguments): Option<string> {
    var pattern := if hint.style.Primary? then e.primary else e.secondary;
    if hint.text.Some? then hint.text
    else if pattern.None? then None
    else Some(FilledPattern(pattern.value, args))
  }

  lemma {:induction false} RenderLabelsSucceeds(schema: Schema, e: CatalogEntry, labels: seq<Label>, args: Arguments)
    requires ArgumentsOk(schema, args)
    requires forall o <- [e.primary, e.secondary] | o.Some? :: PatternOk(schema, o.value)
    ensures RenderLabels(e, labels, args).Success?
    ensures var r := RenderLabels(e, labels, args).value;
            |r| == |labels| &&
            forall i | 0 <= i < |r| :: r[i] == labels[i].(text := LabelText(e, labels[i], args))
  {
    hide PatternOk;
    hide ArgumentsOk;
    hide Fill;
    hide FilledPattern;
    if labels != [] {
      var first := labels[0];
      var pattern := if first.style.Primary? then e.primary else e.secondary;
      assert pattern in [e.primary, e.secondary];
      if first.text.None? && pattern.Some? {
        FillSucceeds(schema, pattern.value, args);
      }
      RenderLabelsSucceeds(schema, e, labels[1..], args);
    }
  }

  /** A loaded catalog has a valid entry for every known identifier. */
  predicate Loaded(registry: Registry, catalog: Catalog) {
    forall id <- registry :: id in catalog && EntryOk(registry[id], catalog[id])
  }

  /** With a loaded catalog rendering fails only on arguments that do not fit
      the schema, and says each pattern with its own arguments replaced. */
  lemma RenderIsTotal(registry: Registry, catalog: Catalog, spec: DiagnosticSpec)
    requires Loaded(registry, catalog) && spec.id in registry
    ensures Render(registry, catalog, spec).Success? <==> ArgumentsOk(registry[spec.id], spec.args)
    ensures Render(registry, catalog, spec).Success? ==>
              var r, e := Render(registry, catalog, spec).value, catalog[spec.id];
              && r.code == e.code
              && r.message == FilledPattern(e.message, spec.args)
              && r.title == FilledPattern(e.title, spec.args)
              && |r.causes| == |e.causes|
              && (forall i | 0 <= i < |r.causes| :: r.causes[i] == FilledPattern(e.causes[i], spec.args))
              && r.help == (if e.help.None? then None else Some(FilledPattern(e.help.value, spec.args)))
              && |r.labels| == |spec.labels|
              && (forall i | 0 <= i < |r.labels| ::
                    r.labels[i] == spec.labels[i].(text := LabelText(e, spec.labels[i], spec.args)))
  {
    hide PatternOk;
    hide ArgumentsOk;
    hide Fill;
    hide FillAll;
    hide RenderLabels;
    hide LabelText;
    hide EntryOk;
    var schema, e, args := registry[spec.id], catalog[spec.id], spec.args;
    if ArgumentsOk(schema, args) {
      PatternsCover(schema, e);
      FillSucceeds(schema, e.message, args);
      FillSucceeds(schema, e.title, args);
      FillAllSucceeds(schema, e.causes, args);
      if e.help.Some? {
        assert e.help in [e.primary, e.secondary, e.help];
        FillSucceeds(schema, e.help.value, args);
      }
      forall o <- [e.primary, e.secondary] | o.Some? ensures PatternOk(schema, o.value) {
        assert o in [e.primary, e.secondary, e.help];
      }
      RenderLabelsSucceeds(schema, e, spec.labels, args);
    }
  }

  // ----- loading --------------------------------------------------------------------------------

  predicate DistinctIds(entries: seq<CatalogEntry>) {
    forall i, j | 0 <= i < j < |entries| :: entries[i].id != entries[j].id
  }

  predicate DistinctCodes(entries: seq<CatalogEntry>) {
    forall i, j | 0 <= i < j < |entries| :: entries[i].code != entries[j].code
  }

  method CodesAreDistinct(entries: seq<CatalogEntry>) returns (r: bool)
    ensures r <==> DistinctCodes(entries)
  {
    var codes: set<string> := {};
    for i := 0 to |entries|
      invariant forall c :: c in codes <==> exists k :: 0 <= k < i && entries[k].code == c
      invariant forall j, k | 0 <= j < k < i :: entries[j].code != entries[k].code
    {
      if entries[i].code in codes {
        return false;
      }
      codes := codes + {entries[i].code};
    }
    return true;
  }

  /** Collects parsed entries: each must be valid, no identifier and no code
      twice, and every known identifier present. */
  method LoadEntries(registry: Registry, entries: seq<CatalogEntry>) returns (r: Option<Catalog>)
    requires forall e <- entries :: e.id in registry
    ensures r.Some? <==>
              && (forall e <- entries :: EntryOk(registry[e.id], e))
              && DistinctIds(entries) && DistinctCodes(entries)
              && (forall id <- registry :: exists e <- entries :: e.id == id)
    ensures r.Some? ==> Loaded(registry, r.value) && forall e <- entries :: e.id in r.value && r.value[e.id] == e
  {
    hide EntryOk;
    hide DistinctCodes;
    var catalog: Catalog := map[];
    for i := 0 to |entries|
      invariant forall k | 0 <= k < i :: EntryOk(registry[entries[k].id], entries[k])
      invariant DistinctIds(entries[..i])
      invariant forall k | 0 <= k < i :: entries[k].id in catalog && catalog[entries[k].id] == entries[k]
      invariant forall id <- catalog :: exists k :: 0 <= k < i && entries[k].id == id
    {
      var e := entries[i];
      assert e in entries;
      var valid := ValidateCatalogEntry(registry[e.id], e);
      if !valid {
        return None;
      }
      if e.id in catalog {
        return None;
      }
      catalog := catalog[e.id := e];
    }
    assert entries[..|entries|] == entries;
    var distinct := CodesAreDistinct(entries);
    if !distinct {
      return None;
    }
    if exists id <- registry :: id !in catalog {
      forall e <- entries ensures e.id in catalog {
        var k :| 0 <= k < |entries| && entries[k] == e;
      }
      return None;
    }
    forall id <- registry ensures EntryOk(registry[id], catalog[id]) && exists e <- entries :: e.id == id {
      var k :| 0 <= k < |entries| && entries[k].id == id;
      assert entries[k] in entries;
    }
    return Some(catalog);
  }

  /** The entries of an overlay in place of the catalog's own. */
  function Overlaid(catalog: Catalog, entries: seq<CatalogEntry>): Catalog {
    if entries == [] then catalog
    else
      var last := entries[|entries| - 1];
      Overlaid(catalog, entries[..|entries| - 1])[last.id := last]
  }

  /** Replaces catalog entries by those of an overlay, in the order of its shards:
      each must be valid and none may repeat an identifier. */
  method LoadOverlay(registry: Registry, catalog: Catalog, entries: seq<CatalogEntry>) returns (r: Option<Catalog>)
    requires forall e <- entries :: e.id in registry
    ensures r.Some? <==> (forall e <- entries :: EntryOk(registry[e.id], e)) && DistinctIds(entries)
    ensures r.Some? ==> r.value == Overlaid(catalog, entries)
  {
    hide EntryOk;
    var result := catalog;
    var overlaid: set<DiagId> := {};
    for i := 0 to |entries|
      invariant forall k | 0 <= k < i :: EntryOk(registry[entries[k].id], entries[k])
      invariant DistinctIds(entries[..i])
      invariant forall id :: id in overlaid <==> exists k :: 0 <= k < i && entries[k].id == id
      invariant result == Overlaid(catalog, entries[..i])
    {
      var e := entries[i];
      assert e in entries;
      var valid := ValidateCatalogEntry(registry[e.id], e);
      if !valid {
        return None;
      }
      if e.id in overlaid {
        return None;
      }
      overlaid := overlaid + {e.id};
      result := result[e.id := e];
      assert entries[..i + 1][..i] == entries[..i];
    }
    assert entries[..|entries|] == entries;
    return Some(result);
  }

  lemma {:induction false} OverlaidOthers(catalog: Catalog, entries: seq<CatalogEntry>, id: DiagId)
    requires forall e <- entries :: e.id != id
    ensures id in Overlaid(catalog, entries) <==> id in catalog
    ensures id in catalog ==> Overlaid(catalog, entries)[id] == catalog[id]
    decreases |entries|
  {
    if entries != [] {
      assert entries[|entries| - 1] in entries;
      OverlaidOthers(catalog, entries[..|entries| - 1], id);
    }
  }

  lemma {:induction false} OverlaidEntry(catalog: Catalog, entries: seq<CatalogEntry>, k: nat)
    requires DistinctIds(entries) && k < |entries|
    ensures entries[k].id in Overlaid(catalog, entries) && Overlaid(catalog, entries)[entries[k].id] == entries[k]
    decreases |entries|
  {
    if k < |entries| - 1 {
      OverlaidEntry(catalog, entries[..|entries| - 1], k);
    }
  }

  /** An accepted overlay replaces exactly the entries it names and keeps the
      catalog able to render everything. */
  lemma OverlayKeepsLoaded(registry: Registry, catalog: Catalog, entries: seq<CatalogEntry>)
    requires Loaded(registry, catalog) && DistinctIds(entries)
    requires forall e <- entries :: e.id in registry && EntryOk(registry[e.id], e)
    ensures Loaded(registry, Overlaid(catalog, entries))
    ensures forall e <- entries :: e.id in Overlaid(catalog, entries) && Overlaid(catalog, entries)[e.id] == e
    ensures forall id <- catalog | (forall e <- entries :: e.id != id) ::
              id in Overlaid(catalog, entries) && Overlaid(catalog, entries)[id] == catalog[id]
  {
    hide EntryOk;
    hide DistinctIds;
    hide Overlaid;
    forall e <- entries ensures e.id in Overlaid(catalog, entries) && Overlaid(catalog, entries)[e.id] == e {
      var k :| 0 <= k < |entries| && entries[k] == e;
      OverlaidEntry(catalog, entries, k);
    }
    forall id | forall e <- entries :: e.id != id
      ensures id in Overlaid(catalog, entries) <==> id in catalog
      ensures id in catalog ==> Overlaid(catalog, entries)[id] == catalog[id]
    {
      OverlaidOthers(catalog, entries, id);
    }
  }

  // ----- what the checks mean ------------------------------------------------------------------

  predicate SameKind(kind: ArgumentKind, value: Value) {
    match kind
    case TextKind => value.TextValue?
    case SignedKind => value.SignedValue?
    case UnsignedKind => value.UnsignedValue?
    case BooleanKind => value.BooleanValue?
  }

  lemma {:induction false} KindIsFirst(schema: Schema, name: string, at: nat)
    requires at < |schema| && schema[at].name == name && forall i | 0 <= i < at :: schema[i].name != name
    ensures KindOf(schema, name) == Some(schema[at].kind)
  {
    if at > 0 {
      assert schema[0].name != name;
      KindIsFirst(schema[1..], name, at - 1);
    }
  }

  function SchemaNames(schema: Schema): seq<string> {
    seq(|schema|, i requires 0 <= i < |schema| => schema[i].name)
  }

  function GivenNames(args: Arguments): seq<string> {
    seq(|args|, j requires 0 <= j < |args| => args[j].0)
  }

  predicate Gives(args: Arguments, a: ArgumentSpec) {
    exists j :: 0 <= j < |args| && args[j].0 == a.name && SameKind(a.kind, args[j].1)
  }

  /** For a schema without repeated names: arguments are valid exactly when there are
      as many as the schema lists, and each listed one is given with its kind. */
  lemma {:induction false} ArgumentsMatchSchema(schema: Schema, args: Arguments)
    requires forall i, j | 0 <= i < j < |schema| :: schema[i].name != schema[j].name
    ensures ArgumentsOk(schema, args) <==>
              |args| == |schema| && forall i | 0 <= i < |schema| :: Gives(args, schema[i])
  {
    forall i | 0 <= i < |schema| ensures KindOf(schema, schema[i].name) == Some(schema[i].kind) {
      KindIsFirst(schema, schema[i].name, i);
    }
    if ArgumentsOk(schema, args) {
      ValidArgumentsMatch(schema, args);
    } else if |args| == |schema| && forall i | 0 <= i < |schema| :: Gives(args, schema[i]) {
      MatchingArgumentsAreValid(schema, args);
    }
  }

  lemma {:induction false} ValidArgumentsMatch(schema: Schema, args: Arguments)
    requires ArgumentsOk(schema, args)
    requires forall i, j | 0 <= i < j < |schema| :: schema[i].name != schema[j].name
    requires forall i | 0 <= i < |schema| :: KindOf(schema, schema[i].name) == Some(schema[i].kind)
    ensures |args| == |schema| && forall i | 0 <= i < |schema| :: Gives(args, schema[i])
  {
    hide KindOf;
    hide Lookup;
    var wanted, given := SchemaNames(schema), GivenNames(args);
    forall i | 0 <= i < |schema| ensures Gives(args, schema[i]) && wanted[i] in given {
      assert schema[i] in schema;
      var a :| a in args && a.0 == schema[i].name;
      var j :| 0 <= j < |args| && args[j] == a;
      assert given[j] == wanted[i];
    }
    hide Gives;
    GivenIsWanted(schema, args);
    if |given| <= |wanted| {
      SameElements(wanted, given);
    } else {
      SameElements(given, wanted);
    }
  }

  lemma GivenIsWanted(schema: Schema, args: Arguments)
    requires ArgumentsOk(schema, args)
    ensures forall x <- GivenNames(args) :: x in SchemaNames(schema)
  {
    hide Lookup;
    forall x <- GivenNames(args) ensures x in SchemaNames(schema) {
      var j :| 0 <= j < |args| && GivenNames(args)[j] == x;
      assert args[j] in args;
      var a :| a in schema && a.name == args[j].0;
      var i :| 0 <= i < |schema| && schema[i] == a;
      assert SchemaNames(schema)[i] == x;
    }
  }

  lemma {:induction false} MatchingArgumentsAreValid(schema: Schema, args: Arguments)
    requires |args| == |schema| && forall i | 0 <= i < |schema| :: Gives(args, schema[i])
    requires forall i, j | 0 <= i < j < |schema| :: schema[i].name != schema[j].name
    requires forall i | 0 <= i < |schema| :: KindOf(schema, schema[i].name) == Some(schema[i].kind)
    ensures ArgumentsOk(schema, args)
  {
    hide KindOf;
    hide Lookup;
    var wanted, given := SchemaNames(schema), GivenNames(args);
    forall x <- wanted ensures x in given {
      var i :| 0 <= i < |wanted| && wanted[i] == x;
      assert Gives(args, schema[i]);
      var j :| 0 <= j < |args| && args[j].0 == schema[i].name && SameKind(schema[i].kind, args[j].1);
      assert given[j] == x;
    }
    SameElements(wanted, given);
    assert Distinct(args) by {
      forall i, j | 0 <= i < j < |args| ensures args[i].0 != args[j].0 {
        assert given[i] != given[j];
      }
    }
    forall a <- args ensures KindOf(schema, a.0) == Some(a.1.Kind()) {
      var k :| 0 <= k < |args| && args[k] == a;
      assert given[k] in given;
      var i :| 0 <= i < |wanted| && wanted[i] == given[k];
      assert Gives(args, schema[i]);
      var j :| 0 <= j < |args| && args[j].0 == schema[i].name && SameKind(schema[i].kind, args[j].1);
      assert given[j] == given[k];
    }
    forall a <- schema ensures Lookup(args, a.name).Some? {
      var i :| 0 <= i < |schema| && schema[i] == a;
      assert Gives(args, schema[i]);
      var j :| 0 <= j < |args| && args[j].0 == a.name && SameKind(a.kind, args[j].1);
      assert args[j] in args;
    }
  }

  /** A pattern is valid exactly when it is spelled by pieces whose arguments are all
      of the schema. */
  lemma {:induction false} ValidPatternIs(schema: Schema, pattern: string)
    ensures PatternOk(schema, pattern) <==>
              exists pieces: seq<Piece> :: Formed(pieces) && Spell(pieces) == pattern && ArgumentsIn(schema, pieces)
  {
    if PatternOk(schema, pattern) {
      var pieces := Pieces(pattern).value;
      PiecesSpell(pattern);
      NamesAre(pieces);
      hide Pieces;
      hide Formed;
      hide Spell;
      hide Names;
      forall p <- pieces | p.Argument? ensures InSchema(schema, p.name) {
        assert p == Argument(p.name);
      }
    }
    forall pieces: seq<Piece> | Formed(pieces) && Spell(pieces) == pattern && ArgumentsIn(schema, pieces)
      ensures PatternOk(schema, pattern)
    {
      SpellPieces(pieces);
      NamesAre(pieces);
      hide Pieces;
      hide Formed;
      hide Spell;
      hide Names;
    }
  }

  predicate ArgumentsIn(schema: Schema, pieces: seq<Piece>) {
    forall p <- pieces :: p.Argument? ==> InSchema(schema, p.name)
  }

  lemma {:induction false} NamesAre(pieces: seq<Piece>)
    ensures forall name :: name in Names(pieces) <==> Argument(name) in pieces
  {
    if pieces != [] {
      NamesAre(pieces[1..]);
      assert pieces == [pieces[0]] + pieces[1..];
    }
  }

  /** An entry is valid exactly when its title, its message, its causes, and its help
      and label texts if it has them, are. */
  lemma ValidEntryIs(schema: Schema, e: CatalogEntry)
    ensures EntryOk(schema, e) <==>
              && PatternOk(schema, e.title) && PatternOk(schema, e.message)
              && (forall cause <- e.causes :: PatternOk(schema, cause))
              && (e.help.Some? ==> PatternOk(schema, e.help.value))
              && (e.primary.Some? ==> PatternOk(schema, e.primary.value))
              && (e.secondary.Some? ==> PatternOk(schema, e.secondary.value))
  {
    hide PatternOk;
    if EntryOk(schema, e) {
      PatternsCover(schema, e);
      assert e.help in [e.primary, e.secondary, e.help];
      assert e.primary in [e.primary, e.secondary, e.help] && e.secondary in [e.primary, e.secondary, e.help];
    }
  }

  /** A rendered label keeps its place and style; its text is its own if it has one,
      and otherwise that of its entry for its style, filled, if that has one. */
  lemma RenderedLabels(registry: Registry, catalog: Catalog, spec: DiagnosticSpec, i: nat)
    requires Loaded(registry, catalog) && spec.id in registry && ArgumentsOk(registry[spec.id], spec.args)
    requires i < |spec.labels|
    ensures Render(registry, catalog, spec).Success? && i < |Render(registry, catalog, spec).value.labels|
    ensures var e, given, shown := catalog[spec.id], spec.labels[i], Render(registry, catalog, spec).value.labels[i];
            && shown.span == given.span && shown.style == given.style
            && (given.text.Some? ==> shown.text == given.text)
            && (given.text.None? && given.style == Primary ==>
                  if e.primary.Some? then shown.text == Some(FilledPattern(e.primary.value, spec.args))
                  else shown.text == None)
            && (given.text.None? && given.style == Secondary ==>
                  if e.secondary.Some? then shown.text == Some(FilledPattern(e.secondary.value, spec.args))
                  else shown.text == None)
  {
    RenderIsTotal(registry, catalog, spec);
    hide Render;
    hide FilledPattern;
  }

  /** A filled pattern is its pieces with every argument shown in place. */
  lemma FilledIs(pieces: seq<Piece>, args: Arguments)
    requires Formed(pieces) && forall p <- pieces :: p.Argument? ==> Lookup(args, p.name).Some?
    ensures FilledPattern(Spell(pieces), args) == Joined(pieces, args, |pieces|)
  {
    SpellPieces(pieces);
    FilledJoined(pieces, args, |pieces|);
    assert pieces[..|pieces|] == pieces;
  }

  /** The first `n` pieces as they are shown. */
  function Joined(pieces: seq<Piece>, args: Arguments, n: nat): string
    requires n <= |pieces|
    requires forall p <- pieces :: p.Argument? ==> Lookup(args, p.name).Some?
  {
    if n == 0 then []
    else
      var p := pieces[n - 1];
      Joined(pieces, args, n - 1) + if p.Literal? then p.text else Lookup(args, p.name).value.Show()
  }

  lemma {:induction false} FilledJoined(pieces: seq<Piece>, args: Arguments, n: nat)
    requires n <= |pieces| && forall p <- pieces :: p.Argument? ==> Lookup(args, p.name).Some?
    ensures Filled(pieces[..n], args) == Joined(pieces, args, n)
  {
    if n > 0 {
      hide Filled;
      hide Lookup;
      FilledJoined(pieces, args, n - 1);
      FilledSnoc(pieces[..n - 1], pieces[n - 1], args);
      assert pieces[n - 1] in pieces;
      assert pieces[..n] == pieces[..n - 1] + [pieces[n - 1]];
    }
  }

  function ShownPiece(p: Piece, args: Arguments): string {
    if p.Literal? then p.text
    else if Lookup(args, p.name).Some? then Lookup(args, p.name).value.Show()
    else []
  }

  lemma FilledCons(p: Piece, rest: seq<Piece>, args: Arguments)
    ensures Filled([p] + rest, args) == ShownPiece(p, args) + Filled(rest, args)
    ensures Filled([p], args) == ShownPiece(p, args)
  {
    assert ([p] + rest)[1..] == rest && [p][1..] == [];
    assert ShownPiece(p, args) + [] == ShownPiece(p, args);
  }

  lemma {:induction false} FilledSnoc(pieces: seq<Piece>, last: Piece, args: Arguments)
    ensures Filled(pieces + [last], args) == Filled(pieces, args) + ShownPiece(last, args)
    decreases |pieces|
  {
    if pieces == [] {
      FilledCons(last, [], args);
      assert [] + [last] == [last] && [] + ShownPiece(last, args) == ShownPiece(last, args);
    } else {
      hide *;
      var p, rest := pieces[0], pieces[1..];
      assert pieces == [p] + rest && pieces + [last] == [p] + (rest + [last]);
      FilledCons(p, rest, args);
      FilledCons(p, rest + [last], args);
      FilledSnoc(rest, last, args);
      Regrouped(ShownPiece(p, args), Filled(rest, args), ShownPiece(last, args));
    }
  }
}
