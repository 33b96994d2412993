/** The installed schema: server/catalog.go. */
module Catalogs {
  import opened Outcomes
  import opened Text
  import opened Patterns

  datatype CatalogEntry = CatalogEntry(kind: string, commands: seq<string>)

  datatype Document = Document(enforced: bool, entries: seq<CatalogEntry>)

  function TrimEntry(entry: CatalogEntry): CatalogEntry {
    CatalogEntry(Trim(entry.kind), TrimAll(entry.commands))
  }

  /** A stored entry: an exact type and 1 to 32 different valid commands, all trimmed. */
  predicate Normal(entry: CatalogEntry) {
    && ExactType(entry.kind)
    && 1 <= |entry.commands| <= MAX_CATALOG_COMMANDS
    && (forall i | 0 <= i < |entry.commands| :: ValidCommand(entry.commands[i]))
    && NoDuplicates(entry.commands)
  }

  predicate Stored(entry: CatalogEntry) {
    Normal(entry) && TrimEntry(entry) == entry
  }

  predicate DifferentKinds(entries: seq<CatalogEntry>) {
    forall i, j | 0 <= i < j < |entries| :: entries[i].kind != entries[j].kind
  }

  /** A stored list: at most 256 normal, trimmed entries with different types. */
  predicate WellFormed(entries: seq<CatalogEntry>) {
    && |entries| <= MAX_CATALOG_ENTRIES
    && (forall i | 0 <= i < |entries| :: Stored(entries[i]))
    && DifferentKinds(entries)
  }

  lemma TrimEntryTwice(entry: CatalogEntry)
    ensures TrimEntry(TrimEntry(entry)) == TrimEntry(entry)
  {
    TrimIsTrimmed(entry.kind);
    TrimAllTwice(entry.commands);
  }

  /** `normalizeEntry` accepts exactly the entries that are normal once trimmed, and answers the trimmed entry. */
  method NormalizeEntry(entry: CatalogEntry) returns (r: Result<CatalogEntry>)
    ensures r == if Normal(TrimEntry(entry)) then Ok(TrimEntry(entry)) else Err(Validation)
  {
    hide Trim, ExactType, ValidCommand;
    var kind := Trim(entry.kind);
    if !ExactType(kind) {
      return Err(Validation);
    }
    if |entry.commands| == 0 || |entry.commands| > MAX_CATALOG_COMMANDS {
      return Err(Validation);
    }
    var seen: set<string> := {};
    var commands: seq<string> := [];
    for i := 0 to |entry.commands|
      invariant commands == TrimAll(entry.commands)[..i]
      invariant seen == set command | command in commands
      invariant NoDuplicates(commands)
      invariant forall k | 0 <= k < i :: ValidCommand(commands[k])
    {
      var command := Trim(entry.commands[i]);
      assert command == TrimAll(entry.commands)[i];
      if !ValidCommand(command) {
        return Err(Validation);
      }
      if command in seen {
        assert exists k :: 0 <= k < i && TrimAll(entry.commands)[k] == TrimAll(entry.commands)[i];
        return Err(Validation);
      }
      seen := seen + {command};
      commands := commands + [command];
    }
    assert commands == TrimAll(entry.commands);
    return Ok(CatalogEntry(kind, commands));
  }

  predicate Decodable(document: Document) {
    && |document.entries| <= MAX_CATALOG_ENTRIES
    && (forall i | 0 <= i < |document.entries| :: Normal(TrimEntry(document.entries[i])))
    && (forall i, j | 0 <= i < j < |document.entries| ::
          Trim(document.entries[i].kind) != Trim(document.entries[j].kind))
  }

  function TrimEntries(entries: seq<CatalogEntry>): (trimmed: seq<CatalogEntry>)
    ensures |trimmed| == |entries|
  {
    seq(|entries|, i requires 0 <= i < |entries| => TrimEntry(entries[i]))
  }

  /** `decodeCatalog` of a parsed document. */
  method DecodeCatalog(document: Document) returns (r: Result<Document>)
    ensures r == if Decodable(document) then Ok(document.(entries := TrimEntries(document.entries)))
                 else Err(Validation)
    ensures r.Ok? ==> WellFormed(r.value.entries)
  {
    hide Trim, TrimAll, Normal;
    if |document.entries| > MAX_CATALOG_ENTRIES {
      return Err(Validation);
    }
    var seen: set<string> := {};
    var entries: seq<CatalogEntry> := [];
    for i := 0 to |document.entries|
      invariant entries == TrimEntries(document.entries)[..i]
      invariant forall kind :: kind in seen <==> exists k :: 0 <= k < i && Trim(document.entries[k].kind) == kind
      invariant forall k | 0 <= k < i :: Normal(TrimEntry(document.entries[k]))
      invariant forall j, k | 0 <= j < k < i :: Trim(document.entries[j].kind) != Trim(document.entries[k].kind)
    {
      var normalized := NormalizeEntry(document.entries[i]);
      if normalized.Err? {
        return Err(normalized.error);
      }
      var entry := normalized.value;
      if entry.kind in seen {
        return Err(Validation);
      }
      seen := seen + {entry.kind};
      entries := entries + [entry];
    }
    assert entries == TrimEntries(document.entries);
    forall i | 0 <= i < |entries| ensures TrimEntry(entries[i]) == entries[i] {
      TrimEntryTwice(document.entries[i]);
    }
    return Ok(document.(entries := entries));
  }

  /** Reloading is the identity on what the catalog stores. */
  lemma DecodingStoredIsIdentity(document: Document)
    requires WellFormed(document.entries)
    ensures Decodable(document) && TrimEntries(document.entries) == document.entries
  {
    hide Trim, TrimAll, Normal;
    assert forall i | 0 <= i < |document.entries| :: Stored(document.entries[i]);
    assert forall i | 0 <= i < |document.entries| :: TrimEntry(document.entries[i]).kind == document.entries[i].kind;
  }

  /** The position of a type, or the length. */
  function Find(entries: seq<CatalogEntry>, kind: string): (i: nat)
    ensures i <= |entries| && (i < |entries| ==> entries[i].kind == kind)
    ensures forall k | 0 <= k < i :: entries[k].kind != kind
  {
    if entries == [] || entries[0].kind == kind then 0 else 1 + Find(entries[1..], kind)
  }

  /** The installed types with their commands. */
  function Schema(entries: seq<CatalogEntry>): map<string, seq<string>> {
    if entries == [] then map[]
    else Schema(entries[..|entries| - 1])[entries[|entries| - 1].kind := entries[|entries| - 1].commands]
  }

  function WithEntry(entries: seq<CatalogEntry>, entry: CatalogEntry): seq<CatalogEntry> {
    var i := Find(entries, entry.kind);
    if i < |entries| then entries[i := entry] else entries + [entry]
  }

  function WithoutKind(entries: seq<CatalogEntry>, kind: string): seq<CatalogEntry> {
    if entries == [] then []
    else
      var last := |entries| - 1;
      WithoutKind(entries[..last], kind) + if entries[last].kind == kind then [] else [entries[last]]
  }

  lemma {:induction false} SchemaKnows(entries: seq<CatalogEntry>, kind: string)
    ensures kind in Schema(entries) <==> Find(entries, kind) < |entries|
    ensures kind in Schema(entries) <==> exists i :: 0 <= i < |entries| && entries[i].kind == kind
  {
    if entries != [] {
      var last := |entries| - 1;
      SchemaKnows(entries[..last], kind);
      assert entries[last].kind == kind ==> exists i :: 0 <= i < |entries| && entries[i].kind == kind;
    }
  }

  lemma {:induction false} SchemaAt(entries: seq<CatalogEntry>, i: nat)
    requires DifferentKinds(entries) && i < |entries|
    ensures entries[i].kind in Schema(entries) && Schema(entries)[entries[i].kind] == entries[i].commands
  {
    if i < |entries| - 1 {
      SchemaAt(entries[..|entries| - 1], i);
    }
  }

  lemma {:induction false} SchemaOfUpdate(entries: seq<CatalogEntry>, i: nat, entry: CatalogEntry)
    requires DifferentKinds(entries) && i < |entries| && entries[i].kind == entry.kind
    ensures Schema(entries[i := entry]) == Schema(entries)[entry.kind := entry.commands]
  {
    var last := |entries| - 1;
    if i < last {
      SchemaOfUpdate(entries[..last], i, entry);
      assert entries[i := entry][..last] == entries[..last][i := entry];
    } else {
      assert entries[i := entry][..last] == entries[..last];
    }
  }

  lemma SchemaOfMore(entries: seq<CatalogEntry>, entry: CatalogEntry)
    ensures Schema(entries + [entry]) == Schema(entries)[entry.kind := entry.commands]
  {
    assert (entries + [entry])[..|entries|] == entries;
  }

  lemma ReplacingKeepsForm(entries: seq<CatalogEntry>, i: nat, entry: CatalogEntry)
    requires WellFormed(entries) && Stored(entry) && i < |entries| && entries[i].kind == entry.kind
    ensures WellFormed(entries[i := entry])
  {
    hide Stored;
  }

  lemma AddingKeepsForm(entries: seq<CatalogEntry>, entry: CatalogEntry)
    requires WellFormed(entries) && Stored(entry) && |entries| < MAX_CATALOG_ENTRIES
    requires forall i | 0 <= i < |entries| :: entries[i].kind != entry.kind
    ensures WellFormed(entries + [entry])
  {
    hide Stored;
  }

  lemma InstallUpdatesSchema(entries: seq<CatalogEntry>, entry: CatalogEntry)
    requires WellFormed(entries) && Stored(entry)
    requires Find(entries, entry.kind) < |entries| || |entries| < MAX_CATALOG_ENTRIES
    ensures WellFormed(WithEntry(entries, entry))
    ensures Schema(WithEntry(entries, entry)) == Schema(entries)[entry.kind := entry.commands]
  {
    var i := Find(entries, entry.kind);
    if i < |entries| {
      SchemaOfUpdate(entries, i, entry);
      ReplacingKeepsForm(entries, i, entry);
    } else {
      SchemaOfMore(entries, entry);
      hide Schema, Stored;
      AddingKeepsForm(entries, entry);
    }
  }

  lemma {:induction false} WithoutIsSubset(entries: seq<CatalogEntry>, kind: string)
    ensures |WithoutKind(entries, kind)| <= |entries|
    ensures forall entry | entry in WithoutKind(entries, kind) :: entry in entries && entry.kind != kind
  {
    if entries != [] {
      WithoutIsSubset(entries[..|entries| - 1], kind);
    }
  }

  lemma NothingWithout(kind: string)
    ensures Schema([]) == map[] && WithoutKind([], kind) == []
  {
  }

  lemma WithoutMore(entries: seq<CatalogEntry>, entry: CatalogEntry, kind: string)
    ensures WithoutKind(entries + [entry], kind) ==
            if entry.kind == kind then WithoutKind(entries, kind) else WithoutKind(entries, kind) + [entry]
  {
    assert (entries + [entry])[..|entries|] == entries;
  }

  lemma {:induction false} WithoutSchema(entries: seq<CatalogEntry>, kind: string)
    ensures Schema(WithoutKind(entries, kind)) == Schema(entries) - {kind}
  {
    hide Schema, WithoutKind;
    if entries == [] {
      NothingWithout(kind);
    } else {
      var last := entries[|entries| - 1];
      var before := entries[..|entries| - 1];
      assert entries == before + [last];
      WithoutSchema(before, kind);
      WithoutMore(before, last, kind);
      SchemaOfMore(before, last);
      SchemaOfMore(WithoutKind(before, kind), last);
    }
  }

  lemma FrontKeepsForm(entries: seq<CatalogEntry>)
    requires WellFormed(entries) && entries != []
    ensures WellFormed(entries[..|entries| - 1]) && Stored(entries[|entries| - 1])
    ensures forall entry | entry in entries[..|entries| - 1] :: entry.kind != entries[|entries| - 1].kind
  {
    hide Stored;
  }

  lemma {:induction false} RemovalKeepsForm(entries: seq<CatalogEntry>, kind: string)
    requires WellFormed(entries)
    ensures WellFormed(WithoutKind(entries, kind))
  {
    if entries != [] {
      var last, before := entries[|entries| - 1], entries[..|entries| - 1];
      FrontKeepsForm(entries);
      RemovalKeepsForm(before, kind);
      WithoutIsSubset(before, kind);
      var rest := WithoutKind(before, kind);
      assert WithoutKind(entries, kind) == if last.kind == kind then rest + [] else rest + [last];
      assert |rest| < |entries| <= MAX_CATALOG_ENTRIES;
      hide WithoutKind, WellFormed, Stored;
      if last.kind == kind {
        assert rest + [] == rest;
      } else {
        assert forall i | 0 <= i < |rest| :: rest[i] in rest;
        AddingKeepsForm(rest, last);
      }
    }
  }

  lemma RemoveUpdatesSchema(entries: seq<CatalogEntry>, kind: string)
    requires WellFormed(entries)
    ensures WellFormed(WithoutKind(entries, kind))
    ensures Schema(WithoutKind(entries, kind)) == Schema(entries) - {kind}
  {
    WithoutSchema(entries, kind);
    RemovalKeepsForm(entries, kind);
  }

  /** The catalog's state: what it holds in memory and the file it last wrote, None while there is no file. */
  datatype CatalogState = CatalogState(enforced: bool, entries: seq<CatalogEntry>, file: Option<Document>)

  function FileAfter(file: Option<Document>, document: Document, fault: WriteFault): Option<Document> {
    if fault.NotReplaced? then file else Some(document)
  }

  /** The catalog that the file loads to. */
  function Reloaded(file: Option<Document>): Option<CatalogState> {
    match file
    case None => Some(CatalogState(false, [], None))
    case Some(document) =>
      if !Decodable(document) then None
      else Some(CatalogState(document.enforced, TrimEntries(document.entries), file))
  }

  class Catalog {
    var enforced: bool
    var entries: seq<CatalogEntry>
    var file: Option<Document>

    function State(): CatalogState
      reads this
    {
      CatalogState(enforced, entries, file)
    }

    ghost predicate Valid()
      reads this
    {
      WellFormed(entries)
    }

    /** `LoadCatalog` of a missing file. */
    constructor ()
      ensures Valid() && State() == CatalogState(false, [], None)
    {
      enforced, entries, file := false, [], None;
    }

    /** `persist`. */
    method Persist(document: Document, fault: WriteFault) returns (ok: bool)
      modifies this`file
      ensures ok == fault.Written? && file == FileAfter(old(file), document, fault)
    {
      if fault.NotReplaced? {
        return false;
      }
      file := Some(document);
      return fault.Written?;
    }

    /** `LoadCatalog`: a missing file is an empty, unenforced catalog. */
    method Load() returns (r: Result<()>)
      modifies this`enforced, this`entries
      ensures r.Ok? <==> Reloaded(old(file)).Some?
      ensures r.Ok? ==> Valid() && State() == Reloaded(old(file)).value
    {
      enforced, entries := false, [];
      if file.None? {
        return Ok(());
      }
      var document := DecodeCatalog(file.value);
      if document.Err? {
        return Err(document.error);
      }
      enforced, entries := document.value.enforced, document.value.entries;
      return Ok(());
    }

    method Install(kind: string, commands: seq<string>, fault: WriteFault) returns (r: Result<(CatalogEntry, bool)>)
      requires Valid()
      modifies this
      ensures Valid() && State() == Installed(old(State()), kind, commands, fault)
      ensures r.Ok? <==> Installable(old(entries), kind, commands) && fault.Written?
      ensures r.Ok? ==> r.value == (TrimEntry(CatalogEntry(kind, commands)), Trim(kind) !in Schema(old(entries)))
    {
      hide Trim, TrimAll, Normal, Schema, TrimEntry;
      var normalized := NormalizeEntry(CatalogEntry(kind, commands));
      if normalized.Err? {
        return Err(normalized.error);
      }
      var entry := normalized.value;
      assert entry.kind == Trim(kind) by {
        KindOfTrimmed(kind, commands);
      }
      TrimEntryTwice(CatalogEntry(kind, commands));
      SchemaKnows(entries, entry.kind);
      var next, created := entries, true;
      var i := 0;
      while i < |next|
        invariant 0 <= i <= |entries|
        invariant created ==> next == entries && forall k | 0 <= k < i :: entries[k].kind != entry.kind
        invariant !created ==> next == WithEntry(entries, entry) && Find(entries, entry.kind) < |entries|
        decreases created, |entries| - i
      {
        if !created {
          break;
        }
        if next[i].kind == entry.kind {
          created := false;
          next := next[i := entry];
        } else {
          i := i + 1;
        }
      }
      if created {
        if |next| >= MAX_CATALOG_ENTRIES {
          return Err(Capacity);
        }
        next := next + [entry];
      }
      InstallUpdatesSchema(entries, entry);
      var persisted := Persist(Document(true, next), fault);
      if !persisted {
        return Err(SystemError);
      }
      enforced := true;
      entries := next;
      return Ok((entry, created));
    }

    method Remove(kind: string, fault: WriteFault) returns (r: Result<()>)
      requires Valid()
      modifies this
      ensures Valid() && State() == Removed(old(State()), kind, fault)
      ensures r.Ok? <==> Trim(kind) in Schema(old(entries)) && fault.Written?
    {
      hide Trim, TrimAll, Normal, Schema, TrimEntry;
      var trimmed := Trim(kind);
      SchemaKnows(entries, trimmed);
      if !ExactType(trimmed) {
        InstalledTypesAreExact(entries, trimmed);
        return Err(Validation);
      }
      var next: seq<CatalogEntry> := [];
      var found := false;
      assert entries[..|entries|] == entries;
      for i := 0 to |entries|
        invariant next == WithoutKind(entries[..i], trimmed)
        invariant found <==> exists k :: 0 <= k < i && entries[k].kind == trimmed
      {
        assert entries[..i + 1][..i] == entries[..i];
        if entries[i].kind == trimmed {
          found := true;
        } else {
          next := next + [entries[i]];
        }
      }
      if !found {
        return Err(NotFound);
      }
      RemoveUpdatesSchema(entries, trimmed);
      var persisted := Persist(Document(enforced, next), fault);
      if !persisted {
        return Err(SystemError);
      }
      entries := next;
      return Ok(());
    }

    method SetEnforced(on: bool, fault: WriteFault) returns (r: Result<()>)
      requires Valid()
      modifies this
      ensures Valid() && State() == Enforced(old(State()), on, fault)
      ensures r.Ok? <==> fault.Written?
    {
      var persisted := Persist(Document(on, entries), fault);
      if !persisted {
        return Err(SystemError);
      }
      enforced := on;
      return Ok(());
    }

    /** `authorize` is lookup in the schema, once it is enforced. */
    method Authorize(kind: string, command: string) returns (ok: bool)
      requires Valid()
      ensures ok == Authorized(enforced, Schema(entries), kind, command)
    {
      hide Normal, TrimEntry, Schema;
      if !enforced {
        return true;
      }
      SchemaKnows(entries, kind);
      for i := 0 to |entries|
        invariant forall k | 0 <= k < i :: entries[k].kind != kind
      {
        if entries[i].kind == kind {
          SchemaAt(entries, i);
          for j := 0 to |entries[i].commands|
            invariant command !in entries[i].commands[..j]
          {
            if entries[i].commands[j] == command {
              return true;
            }
          }
          return false;
        }
      }
      return false;
    }
  }

  lemma KindOfTrimmed(kind: string, commands: seq<string>)
    ensures TrimEntry(CatalogEntry(kind, commands)).kind == Trim(kind)
  {
  }

  lemma InstalledTypesAreExact(entries: seq<CatalogEntry>, kind: string)
    requires WellFormed(entries) && !ExactType(kind)
    ensures kind !in Schema(entries)
  {
    SchemaKnows(entries, kind);
  }

  predicate Authorized(enforced: bool, schema: map<string, seq<string>>, kind: string, command: string) {
    !enforced || (kind in schema && command in schema[kind])
  }

  predicate Installable(entries: seq<CatalogEntry>, kind: string, commands: seq<string>) {
    && Normal(TrimEntry(CatalogEntry(kind, commands)))
    && (Trim(kind) in Schema(entries) || |entries| < MAX_CATALOG_ENTRIES)
  }

  function Installed(s: CatalogState, kind: string, commands: seq<string>, fault: WriteFault): CatalogState {
    if !Installable(s.entries, kind, commands) then s
    else
      var entries := WithEntry(s.entries, TrimEntry(CatalogEntry(kind, commands)));
      var file := FileAfter(s.file, Document(true, entries), fault);
      if fault.Written? then CatalogState(true, entries, file) else s.(file := file)
  }

  function Removed(s: CatalogState, kind: string, fault: WriteFault): CatalogState {
    if Trim(kind) !in Schema(s.entries) then s
    else
      var entries := WithoutKind(s.entries, Trim(kind));
      var file := FileAfter(s.file, Document(s.enforced, entries), fault);
      if fault.Written? then CatalogState(s.enforced, entries, file) else s.(file := file)
  }

  function Enforced(s: CatalogState, on: bool, fault: WriteFault): CatalogState {
    var file := FileAfter(s.file, Document(on, s.entries), fault);
    if fault.Written? then CatalogState(on, s.entries, file) else s.(file := file)
  }

  datatype Change =
    | InstallKind(kind: string, commands: seq<string>, fault: WriteFault)
    | RemoveKind(kind: string, fault: WriteFault)
    | Enforce(on: bool, fault: WriteFault)

  function Next(s: CatalogState, change: Change): CatalogState {
    match change
    case InstallKind(kind, commands, fault) => Installed(s, kind, commands, fault)
    case RemoveKind(kind, fault) => Removed(s, kind, fault)
    case Enforce(on, fault) => Enforced(s, on, fault)
  }

  /** What happens to a catalog: a change, or a restart that loads the file. */
  datatype Action = Apply(change: Change) | Restart

  function Act(s: CatalogState, action: Action): CatalogState {
    match action
    case Apply(change) => Next(s, change)
    case Restart =>
      (match Reloaded(s.file)
       case Some(loaded) => loaded
       case None => s)
  }

  function Run(s: CatalogState, actions: seq<Action>): CatalogState {
    if actions == [] then s else Act(Run(s, actions[..|actions| - 1]), actions[|actions| - 1])
  }

  /** The abstract catalog: a finite map and a switch. */
  datatype Abstract = Abstract(enforced: bool, schema: map<string, seq<string>>)

  /** Whether a change goes on to write the file. */
  predicate Writes(a: Abstract, change: Change) {
    match change
    case InstallKind(kind, commands, _) =>
      var entry := TrimEntry(CatalogEntry(kind, commands));
      Normal(entry) && (entry.kind in a.schema || |a.schema| < MAX_CATALOG_ENTRIES)
    case RemoveKind(kind, _) => Trim(kind) in a.schema
    case Enforce(_, _) => true
  }

  /** What a change that writes asks for. */
  function Intended(a: Abstract, change: Change): Abstract {
    match change
    case InstallKind(kind, commands, _) =>
      var entry := TrimEntry(CatalogEntry(kind, commands));
      Abstract(true, a.schema[entry.kind := entry.commands])
    case RemoveKind(kind, _) => a.(schema := a.schema - {Trim(kind)})
    case Enforce(on, _) => a.(enforced := on)
  }

  /** The abstract catalog twice: in memory, and as the file holds it. */
  datatype Views = Views(memory: Abstract, filed: Abstract)

  function ActOnViews(v: Views, action: Action): Views {
    match action
    case Restart => Views(v.filed, v.filed)
    case Apply(change) =>
      if change.fault.NotReplaced? || !Writes(v.memory, change) then v
      else if change.fault.Written? then Views(Intended(v.memory, change), Intended(v.memory, change))
      else Views(v.memory, Intended(v.memory, change))
  }

  function RunViews(v: Views, actions: seq<Action>): Views {
    if actions == [] then v else ActOnViews(RunViews(v, actions[..|actions| - 1]), actions[|actions| - 1])
  }

  function AbstractOf(s: CatalogState): Abstract {
    Abstract(s.enforced, Schema(s.entries))
  }

  /** The file loads to what is in memory. */
  predicate FileAgrees(s: CatalogState) {
    Reloaded(s.file) == Some(s)
  }

  /** Different types, so as many map keys as entries. */
  lemma {:induction false} SchemaSize(entries: seq<CatalogEntry>)
    requires DifferentKinds(entries)
    ensures |Schema(entries)| == |entries|
  {
    if entries != [] {
      var last, before := entries[|entries| - 1], entries[..|entries| - 1];
      SchemaSize(before);
      SchemaKnows(before, last.kind);
      assert Schema(entries).Keys == Schema(before).Keys + {last.kind};
    }
  }

  /** Whether the file is in step with memory: the last action that replaced it or loaded it was a restart, was synced,
      or asked for what was already there. */
  predicate InStep(v: Views, actions: seq<Action>) {
    if actions == [] then true
    else
      var before, last := actions[..|actions| - 1], actions[|actions| - 1];
      var memory := RunViews(v, before).memory;
      match last
      case Restart => true
      case Apply(change) =>
        if change.fault.NotReplaced? || !Writes(memory, change) then InStep(v, before)
        else change.fault.Written? || Intended(memory, change) == memory
  }

  const EMPTY_CATALOG := CatalogState(false, [], None)

  /** The document that a change that writes puts into the file. */
  function Target(s: CatalogState, change: Change): Document {
    match change
    case InstallKind(kind, commands, _) => Document(true, WithEntry(s.entries, TrimEntry(CatalogEntry(kind, commands))))
    case RemoveKind(kind, _) => Document(s.enforced, WithoutKind(s.entries, Trim(kind)))
    case Enforce(on, _) => Document(on, s.entries)
  }

  /** A change does nothing, or goes to its target in memory and file, or in the file alone. */
  lemma NextGoesToTarget(s: CatalogState, change: Change)
    requires WellFormed(s.entries)
    ensures var target := Target(s, change);
            Next(s, change) ==
              if !Writes(AbstractOf(s), change) then s
              else if change.fault.Written? then CatalogState(target.enforced, target.entries, Some(target))
              else s.(file := FileAfter(s.file, target, change.fault))
  {
    hide Normal, Schema, WellFormed, Trim, TrimEntry, WithEntry, WithoutKind, Installable, Find, Stored, TrimAll;
    if change.InstallKind? {
      InstallableExactly(s.entries, change.kind, change.commands);
    }
  }

  /** The target is what the change asks for, and differs from what is there exactly when that does. */
  lemma TargetIsIntended(s: CatalogState, change: Change)
    requires WellFormed(s.entries) && Writes(AbstractOf(s), change)
    ensures var target := Target(s, change);
            && WellFormed(target.entries)
            && Abstract(target.enforced, Schema(target.entries)) == Intended(AbstractOf(s), change)
            && (target == Document(s.enforced, s.entries) <==> Intended(AbstractOf(s), change) == AbstractOf(s))
  {
    match change
    case InstallKind(kind, commands, _) =>
      var entry := TrimEntry(CatalogEntry(kind, commands));
      InstallableExactly(s.entries, kind, commands);
      hide Normal, Trim, TrimEntry, TrimAll, Stored, Installable;
      InstallUpdatesSchema(s.entries, entry);
      hide WellFormed, Schema;
      SameSchemaSameEntries(s.entries, entry);
    case RemoveKind(kind, _) =>
      hide Normal, Schema, Trim, WellFormed, WithoutKind;
      RemoveUpdatesSchema(s.entries, Trim(kind));
    case Enforce(_, _) =>
  }

  lemma SameSchemaSameEntries(entries: seq<CatalogEntry>, entry: CatalogEntry)
    requires WellFormed(entries)
    ensures Schema(entries)[entry.kind := entry.commands] == Schema(entries) ==> WithEntry(entries, entry) == entries
  {
    var i := Find(entries, entry.kind);
    SchemaKnows(entries, entry.kind);
    FindFinds(entries, entry.kind);
    if i < |entries| {
      SchemaAt(entries, i);
      hide Schema, WellFormed, Find;
      assert Schema(entries)[entry.kind := entry.commands] == Schema(entries) ==> entries[i] == entry;
    }
  }

  lemma {:induction false} FindFinds(entries: seq<CatalogEntry>, kind: string)
    ensures Find(entries, kind) < |entries| ==> entries[Find(entries, kind)].kind == kind
  {
    if entries != [] && Find(entries, kind) < |entries| {
      FindFinds(entries[..|entries| - 1], kind);
    }
  }

  /** When an installation goes on to write, in terms of the map alone. */
  lemma InstallableExactly(entries: seq<CatalogEntry>, kind: string, commands: seq<string>)
    requires WellFormed(entries)
    ensures var entry := TrimEntry(CatalogEntry(kind, commands));
            && (Installable(entries, kind, commands) <==>
                  Normal(entry) && (entry.kind in Schema(entries) || |Schema(entries)| < MAX_CATALOG_ENTRIES))
            && (Installable(entries, kind, commands) ==>
                  && Stored(entry)
                  && (Find(entries, entry.kind) < |entries| || |entries| < MAX_CATALOG_ENTRIES))
  {
    KindOfTrimmed(kind, commands);
    TrimEntryTwice(CatalogEntry(kind, commands));
    SchemaSize(entries);
    SchemaKnows(entries, Trim(kind));
    hide Trim, Normal, Schema, TrimEntry, Find;
  }

  /** What every reachable catalog keeps: memory is well formed, and the file loads to something well formed. */
  ghost predicate Sound(s: CatalogState) {
    WellFormed(s.entries) && Reloaded(s.file).Some? && WellFormed(Reloaded(s.file).value.entries)
  }

  function ViewsOf(s: CatalogState): Views
    requires Reloaded(s.file).Some?
  {
    Views(AbstractOf(s), AbstractOf(Reloaded(s.file).value))
  }

  /** Whatever the file loads to is well formed and agrees with the file. */
  lemma LoadedIsSound(file: Option<Document>)
    requires Reloaded(file).Some?
    ensures Sound(Reloaded(file).value) && FileAgrees(Reloaded(file).value)
  {
    if file.Some? {
      var entries := file.value.entries;
      forall i | 0 <= i < |entries| ensures Stored(TrimEntry(entries[i])) {
        TrimEntryTwice(entries[i]);
      }
      hide Normal, Trim, TrimAll;
      assert WellFormed(TrimEntries(entries));
    }
  }

  /** A file written with a well-formed document loads to exactly that. */
  lemma WrittenLoads(document: Document)
    requires WellFormed(document.entries)
    ensures Reloaded(Some(document)) == Some(CatalogState(document.enforced, document.entries, Some(document)))
  {
    DecodingStoredIsIdentity(document);
  }

  /** One action acts on both views as on the abstract catalog, and the file agrees with memory afterwards exactly when
      it was a restart, replaced the file with a synced or unchanged view, or left it alone while it agreed. */
  lemma ActionRefines(s: CatalogState, action: Action)
    requires Sound(s)
    ensures var v, t := ViewsOf(s), Act(s, action);
            && Sound(t)
            && ViewsOf(t) == ActOnViews(v, action)
            && (FileAgrees(t) <==>
                  match action
                  case Restart => true
                  case Apply(change) =>
                    if change.fault.NotReplaced? || !Writes(v.memory, change) then FileAgrees(s)
                    else change.fault.Written? || Intended(v.memory, change) == v.memory)
  {
    match action
    case Restart =>
      LoadedIsSound(s.file);
    case Apply(change) =>
      hide WellFormed, Schema, Intended, Target, Writes, Next, Decodable, TrimEntries;
      NextGoesToTarget(s, change);
      if Writes(AbstractOf(s), change) {
        TargetIsIntended(s, change);
        WrittenLoads(Target(s, change));
      }
  }

  /** The catalog refines a map: loaded from any file that decodes, or from none, over any run of changes and restarts
      with any write faults, what is in memory and what the file holds are those of the abstract catalog, within the
      limits. The file always loads, and it loads to the catalog in memory exactly when the last action that replaced
      or loaded it was a restart, was synced, or asked for what was already there. */
  lemma {:induction false} CatalogRefinesMap(file: Option<Document>, actions: seq<Action>)
    requires Reloaded(file).Some?
    ensures var s, v := Run(Reloaded(file).value, actions), ViewsOf(Reloaded(file).value);
            && Sound(s)
            && ViewsOf(s) == RunViews(v, actions)
            && (Reloaded(s.file) == Some(s) <==> InStep(v, actions))
  {
    var start := Reloaded(file).value;
    if actions == [] {
      LoadedIsSound(file);
    } else {
      var before, last := actions[..|actions| - 1], actions[|actions| - 1];
      CatalogRefinesMap(file, before);
      hide Sound, Reloaded, Act, ActOnViews, AbstractOf, Writes, Intended;
      ActionRefines(Run(start, before), last);
    }
  }

  /** Installing, removing and restarting never clear enforcement: a catalog that memory and file enforce stays enforced
      until the switch is used, and so does one that was empty and has an entry now. */
  lemma {:induction false} EnforcementStays(a: Abstract, actions: seq<Action>)
    requires forall i | 0 <= i < |actions| :: actions[i].Apply? ==> !actions[i].change.Enforce?
    ensures var v := RunViews(Views(a, a), actions);
            && (a.enforced ==> v.memory.enforced && v.filed.enforced)
            && (a.schema == map[] && v.memory.schema != map[] ==> v.memory.enforced)
            && (a.schema == map[] && v.filed.schema != map[] ==> v.filed.enforced)
  {
    if actions != [] {
      EnforcementStays(a, actions[..|actions| - 1]);
    }
  }

  /** For instance, an installation whose directory sync fails leaves the catalog empty and unenforced, and loading the
      file again shows the new entry, enforced. */
  lemma UnsyncedInstallReloadsDifferently()
    ensures var entry := CatalogEntry("ns.a", ["run"]);
            var s := Next(EMPTY_CATALOG, InstallKind("ns.a", ["run"], NotSynced));
            && s.entries == [] && !s.enforced
            && Reloaded(s.file) == Some(CatalogState(true, [entry], s.file))
  {
    var entry := CatalogEntry("ns.a", ["run"]);
    TrimKeepsTrimmed("ns.a");
    TrimKeepsTrimmed("run");
    assert TrimEntry(entry) == entry;
    assert FirstDot("ns.a") == 2 by {
      assert "ns.a"[1..] == "s.a" && "s.a"[1..] == ".a";
    }
    assert Normal(entry) && Schema([]) == map[];
    hide Trim, TrimEntry, Normal, Schema, TrimAll;
    assert WithEntry([], entry) == [entry];
    assert WellFormed([entry]);
    DecodingStoredIsIdentity(Document(true, [entry]));
  }

  /** Which installations go on to write: a namespaced type, 1 to 32 different commands, all after trimming, and room
      among 256 types unless the type is there already. */
  lemma InstallsExactly(a: Abstract, kind: string, commands: seq<string>, fault: WriteFault)
    ensures Writes(a, InstallKind(kind, commands, fault)) <==>
              && (exists ns: string, name: string ::
                    NamespaceWord(ns) && NameWord(name) && Trim(kind) == ns + "." + name)
              && 1 <= |commands| <= 32
              && (forall i | 0 <= i < |commands| :: ValidCommand(Trim(commands[i])))
              && (forall i, j | 0 <= i < j < |commands| :: Trim(commands[i]) != Trim(commands[j]))
              && (Trim(kind) in a.schema || |a.schema| < 256)
  {
    ExactTypesSplit(Trim(kind));
    hide Trim, ExactType, ValidCommand, NamespaceWord, NameWord;
    var entry := TrimEntry(CatalogEntry(kind, commands));
    assert entry.kind == Trim(kind) && |entry.commands| == |commands|;
    assert forall i | 0 <= i < |commands| :: entry.commands[i] == Trim(commands[i]);
  }

  /** What a change that writes does to the view in memory: an installation sets one type to its trimmed commands and
      enforces; a removal takes one type away; the switch is set; and nothing else changes. */
  lemma ChangesSay(v: Views, change: Change)
    requires change.fault.Written? && Writes(v.memory, change)
    ensures var a, b := v.memory, ActOnViews(v, Apply(change)).memory;
            match change
            case InstallKind(kind, commands, _) =>
              && b.enforced && Trim(kind) in b.schema && |b.schema[Trim(kind)]| == |commands|
              && (forall i | 0 <= i < |commands| :: b.schema[Trim(kind)][i] == Trim(commands[i]))
              && (forall other | other != Trim(kind) :: other in b.schema <==> other in a.schema)
              && (forall other | other != Trim(kind) && other in a.schema :: b.schema[other] == a.schema[other])
            case RemoveKind(kind, _) =>
              && b.enforced == a.enforced && Trim(kind) !in b.schema
              && (forall other | other != Trim(kind) :: other in b.schema <==> other in a.schema)
              && (forall other | other != Trim(kind) && other in a.schema :: b.schema[other] == a.schema[other])
            case Enforce(on, _) => b == Abstract(on, a.schema)
  {
    hide Trim, Writes;
  }

  /** Removals write exactly when the type is there, and the switch always writes. */
  lemma OtherChangesWrite(a: Abstract, change: Change)
    ensures change.RemoveKind? ==> (Writes(a, change) <==> Trim(change.kind) in a.schema)
    ensures change.Enforce? ==> Writes(a, change)
  {
    hide Trim;
  }
}
