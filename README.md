# imap: identifier-rename mappings, modelled in Dafny

`imap` is the tool of PolyDeobfuscated that carries hand-made renames from a
deobfuscated JavaScript tree over to future releases of the obfuscated
original. It has three parts:

- A visitor (`IdentifierCollector`) walks a parsed file. It gives every
  scope a flat label from a counter that rises at each scope entry, and it
  lists each declared or referenced name once per scope. Each entry is
  numbered by the order in which the visitor sees it.
- Create diffs the lists of an original file and its deobfuscated
  counterpart. Unmatched identifiers are paired up in id order and stored
  as mappings in source map files.
- A second visitor (`Renamer`) walks an original file again, with the same
  scope rules. It looks up every identifier-bearing node in the open
  scopes, innermost first. Generate applies the resulting edits to the
  text, byte for byte. Check looks for map files that disagree.

The model has seven modules:

- `Types` holds the records of `types.rs`.
- `Scopes` holds the scope counter and stack that both visitors share.
- `Collector` and `Renaming` model the two visitors of `visitors.rs`.
  Each has a pure step function over a state value as its specification.
  Each also has a class that keeps the source's fields and updates them in
  place; every method of the class is proved to follow the step function.
- `Utils` models `compare_identifiers`, `check_identifiers` and
  `apply_changes`.
- `Commands` models the list logic of Create, Check and Generate in
  `main.rs`, over files that are already loaded.
- `LegacyVisitor` models the older depth-counting collector of
  `visitor.rs`.

The parser and its traversal are external to the model. A parsed file
reaches a visitor as a sequence of events, one per callback the traversal
makes: scope entry and exit, class entry and exit, and one event per
identifier-bearing node together with its span. A program's traversal
starts with the program's own scope entry.

Every place where the tool prints an error and exits becomes an error
value: `CreateError`, `CheckFailure`, `GenerateError` and `CheckError`.

`check_identifiers` (`tools/imap/src/utils.rs:98-111`) tests scopes by
membership, not by position: every scope of the first list must occur
somewhere in the second list. `Utils.CheckIgnoresOrder` proves that the
order of the second list cannot change the verdict.

## Model

| member | source | states |
|---|---|---|
| Scopes.Enter | tools/imap/src/visitors.rs:186-194 | The counter rises by one. The new label becomes current and is pushed onto the stack, with the old stack kept below it. The scope invariant is kept, and the new label is larger than every open one. |
| Scopes.Leave | tools/imap/src/visitors.rs:196-199 | The counter is unchanged. A non-empty stack loses exactly its top. An empty stack stays empty, with current 0. The scope invariant is kept. |
| Scopes.ScopeRunValid | tools/imap/src/visitors.rs:69-82 | After any event sequence, the open labels still strictly increase, each came from the counter, and the current label is the innermost one. |
| Scopes.OpenLabelsDistinct | tools/imap/src/visitors.rs:69-77 | Of two scope openings in one run, the later one has a strictly larger label, so labels are unique within a run. |
| Scopes.HeadCounts | tools/imap/src/visitors.rs:69-77 | After a run, the counter equals its starting value plus the number of scopes the run opened. |
| Scopes.OuterScopesKept | tools/imap/src/visitors.rs:79-82 | A run that never leaves more scopes than it has opened keeps every scope that was open before it. Its depth grows by opens minus leaves. |
| Scopes.BalancedRunRestores | tools/imap/src/visitors.rs:69-82 | A run that never closes more scopes than it has opened, and closes as many as it opens (object scopes counted among the openings), restores the open stack and the current label. |
| Scopes.ObjectScopeStaysOpen | tools/imap/src/visitors.rs:127-132 | An object literal inside a function opens a scope that nothing closes. The function's exit pops that scope instead, so the function's own scope stays open. |
| Collector.WithIdentifierAt | tools/imap/src/visitors.rs:43-65 | The list grows by one exactly when the (name, scope) pair is neither ignored nor already listed. The new entry carries that name, that scope and its own index. Only the list changes. Afterwards the pair is listed exactly when it was listed before or was just added. The collector invariant is kept. |
| Collector.WithIdentifier | tools/imap/src/visitors.rs:21-41 | Only the list changes, and only by appending at most one entry. Afterwards the name is listed at the current scope exactly when it was listed before or is not ignored there. |
| Collector.CollectStep | tools/imap/src/visitors.rs:84-138 | One callback has the shared scope effect and adds at most one identifier to the end of the list. |
| Collector.CollectStepInv | tools/imap/src/visitors.rs:43-65 | Every callback keeps the collector invariant: a valid scope state, ids equal to indices, no (name, scope) pair twice. |
| Collector.CollectRun | tools/imap/src/visitors.rs:68-138 | A whole traversal has the scope effect of its events and only adds identifiers to the list. |
| Collector.CollectRunInv | tools/imap/src/visitors.rs:21-65 | The collector invariant holds after any run: no (name, scope) pair twice, each id equal to its index, and a valid scope state. |
| Collector.CollectedIdentifiersWellFormed | tools/imap/src/visitors.rs:43-65 | A whole file's identifiers carry their own indices as ids and repeat no (name, scope) pair. |
| Collector.FunctionNameRecordedOnce | tools/imap/src/visitors.rs:115-125 | A named function is recorded once, in the enclosing scope. The ignore entry suppresses the second sighting of its name inside the function's own scope. |
| Collector.ThisMemberInClassBody | tools/imap/src/visitors.rs:84-106 | Inside a class, `this.x` is attributed to the class body's scope, even from a method nested one scope deeper. |
| Collector.IdentifierCollector.constructor | tools/imap/src/visitors.rs:10-18 | A new collector has the initial state. |
| Collector.IdentifierCollector.AddIdentifierWithScope | tools/imap/src/visitors.rs:43-65 | The fields change exactly as `WithIdentifierAt` says. |
| Collector.IdentifierCollector.AddIdentifier | tools/imap/src/visitors.rs:21-41 | The same, at the current scope. |
| Collector.IdentifierCollector.EnterScope | tools/imap/src/visitors.rs:69-77 | The scope fields change as `Enter` says; nothing else changes. |
| Collector.IdentifierCollector.LeaveScope | tools/imap/src/visitors.rs:79-82 | The scope fields change as `Leave` says; nothing else changes. |
| Collector.IdentifierCollector.EnterNode | tools/imap/src/visitors.rs:84-88 | Only a class node changes anything: it sets the class scope to the label the class body will receive. |
| Collector.IdentifierCollector.LeaveNode | tools/imap/src/visitors.rs:90-94 | Only a class node changes anything: it clears the class scope. |
| Collector.IdentifierCollector.VisitStaticMemberExpression | tools/imap/src/visitors.rs:96-106 | Only `this.<name>` is recorded, at the class scope if set and otherwise at the current one. |
| Collector.IdentifierCollector.VisitPropertyKey | tools/imap/src/visitors.rs:109-113 | The key's static name is recorded at the current scope. |
| Collector.IdentifierCollector.VisitFunction | tools/imap/src/visitors.rs:115-125 | A named function's name is recorded, and the (name, next label) pair is added to the ignores. |
| Collector.IdentifierCollector.VisitObjectExpression | tools/imap/src/visitors.rs:127-132 | Opens a scope. |
| Collector.IdentifierCollector.VisitBindingIdentifier | tools/imap/src/visitors.rs:134-138 | The binding's name is recorded at the current scope. |
| Collector.IdentifierCollector.Walk | tools/imap/src/visitors.rs:68-138 | After a whole traversal the fields equal `CollectRun` of the old state. |
| Renaming.FirstMatch | tools/imap/src/visitors.rs:165-168 | Returns the index of the first mapping, in list order, whose original name and scope match, or the list length when there is none. |
| Renaming.LookupSpec | tools/imap/src/visitors.rs:162-174 | A lookup fails exactly when no open scope has a mapping for the name. On success it returns the first mapping of the innermost open scope that has one. |
| Renaming.InnermostWins | tools/imap/src/visitors.rs:162-174 | A mapping in the innermost open scope wins over every outer one. |
| Renaming.OuterScopeDecides | tools/imap/src/visitors.rs:162-174 | When the innermost scope has no mapping for the name, the lookup is that of the enclosing scopes. |
| Renaming.ScopePrecedence | tools/imap/src/visitors.rs:162-174 | When nested scopes 1 and 2 both map `a` (to `p` and `q`), `a` becomes `q` while scope 2 is open and `p` when only scope 1 is. |
| Renaming.WithChange | tools/imap/src/visitors.rs:176-182 | The edit is present afterwards, and an edit already present is not added again. At most one edit is appended, and distinctness is kept. |
| Renaming.RenameStep | tools/imap/src/visitors.rs:185-262 | One callback has the shared scope effect and only appends edits. It keeps the renamer invariant: distinct edits, each taken from a mapping. |
| Renaming.RenameRun | tools/imap/src/visitors.rs:185-262 | A whole traversal has the scope effect of its events and only appends edits. |
| Renaming.RenameRunInv | tools/imap/src/visitors.rs:176-182 | After any run the edits are distinct. Each edit's text is a mapping's new name, or that name behind `#`. |
| Renaming.RenamedFileEdits | tools/imap/src/visitors.rs:176-262 | A file's edits are distinct and taken from the mappings. With no mappings there is no edit. |
| Renaming.ScopesAgree | tools/imap/src/visitors.rs:186-199 | The collector and the renamer give the same scope labels to the same traversal, so a mapping recorded by one is found by the other. |
| Renaming.ReferenceRenamedIffMapped | tools/imap/src/visitors.rs:210-262 | A reference or private name gets an edit exactly when some open scope maps its name. The edit has the innermost such scope's first new name, with `#` for a private name; otherwise nothing is recorded. |
| Renaming.Renamer.constructor | tools/imap/src/visitors.rs:152-160 | A new renamer holds the mappings, no edits and the initial scope state. |
| Renaming.Renamer.FindMapping | tools/imap/src/visitors.rs:165-168 | The loop returns `FirstMatch`. |
| Renaming.Renamer.GetNewIdentifier | tools/imap/src/visitors.rs:162-174 | The nested loops return `Lookup` over the open scopes. |
| Renaming.Renamer.AddChange | tools/imap/src/visitors.rs:176-182 | The edits change as `WithChange` says. |
| Renaming.Renamer.Rename | tools/imap/src/visitors.rs:210-216 | The mappings stay. The edits change as recording the lookup of the name in the open scopes says, with `#` in front for a private name. |
| Renaming.Renamer.EnterScope | tools/imap/src/visitors.rs:186-194 | The scope fields change as `Enter` says. |
| Renaming.Renamer.LeaveScope | tools/imap/src/visitors.rs:196-199 | The scope fields change as `Leave` says. |
| Renaming.Renamer.VisitStaticMemberExpression | tools/imap/src/visitors.rs:201-208 | Only `this.<name>` is looked up and edited. |
| Renaming.Renamer.VisitPrivateIdentifier | tools/imap/src/visitors.rs:210-216 | A private name is replaced together with its `#`. |
| Renaming.Renamer.VisitPropertyKey | tools/imap/src/visitors.rs:218-230 | A static key is replaced by the new name and a private key by `#` and the new name; a computed key is left alone. |
| Renaming.Renamer.VisitFunction | tools/imap/src/visitors.rs:232-239 | A named function's name is looked up and edited. |
| Renaming.Renamer.VisitObjectExpression | tools/imap/src/visitors.rs:241-246 | Opens a scope. |
| Renaming.Renamer.VisitBindingIdentifier | tools/imap/src/visitors.rs:248-254 | A binding is looked up and edited. |
| Renaming.Renamer.VisitIdentifierReference | tools/imap/src/visitors.rs:256-262 | A reference is looked up and edited. |
| Renaming.Renamer.Walk | tools/imap/src/visitors.rs:185-262 | After a whole traversal the fields equal `RenameRun` of the old state. |
| Utils.Difference | tools/imap/src/utils.rs:73-77 | Lists exactly the identifiers of the first list that the second lacks, each once. |
| Utils.SortById | tools/imap/src/utils.rs:81-82 | The result is sorted by id and is a permutation of the input. |
| Utils.CompareIdentifiers | tools/imap/src/utils.rs:69-85 | The first result holds exactly the identifiers only in the first list; the second holds exactly those only in the second. Each result is duplicate-free and sorted by id. |
| Utils.HashOrderUnobservable | tools/imap/src/utils.rs:73-82 | When ids are indices, as the collector makes them, any sorted, duplicate-free list with the right members is the computed one, so hash-set iteration order cannot show. |
| Utils.FirstMissingScope | tools/imap/src/utils.rs:101-110 | Returns the index of the first identifier whose scope the second list lacks, or the length. |
| Utils.CheckIdentifiers | tools/imap/src/utils.rs:87-112 | Passes exactly when the lengths agree and every scope of the first list occurs in the second. A count mismatch is reported exactly when the lengths differ. When the lengths agree, a failure is always the missing scope of the first identifier whose scope the second list lacks. |
| Utils.CheckIgnoresOrder | tools/imap/src/utils.rs:98-111 | Reordering the second list never changes the verdict. |
| Utils.StitchLength | tools/imap/src/utils.rs:129-145 | The result is as long as the text plus, for each edit, the replacement's length minus the span's. |
| Utils.StitchPlacement | tools/imap/src/utils.rs:135-143 | The original text before, between and after the edits appears unchanged in the result at its shifted position, and each replacement directly follows its gap. |
| Utils.ApplyChanges | tools/imap/src/utils.rs:129-145 | The loop computes `Stitch`: no edits give back the text, and the length changes by the edits' net growth. |
| Commands.MapsFor | tools/imap/src/utils.rs:36-52 | Keeps exactly the map files whose stem is the given one. |
| Commands.MapsForAppend | tools/imap/src/utils.rs:36-52 | Filtering keeps walk order: the files for a stem found earlier in the walk come before those found later. |
| Commands.FlattenAppend | tools/imap/src/main.rs:416-436 | Loading a concatenation of map files loads the first part's mappings, then the second's. |
| Commands.FlattenMembers | tools/imap/src/main.rs:416-436 | A mapping is loaded exactly when some map file holds it. |
| Commands.TagAllMatchesFlatten | tools/imap/src/main.rs:293-315 | The tagged list pairs each loaded mapping, in order, with the path of a map file that holds it. |
| Commands.GatherMappings | tools/imap/src/main.rs:416-436 | The loop yields `Flatten`. |
| Commands.GatherTagged | tools/imap/src/main.rs:293-315 | The nested loops yield `TagAll`. |
| Commands.FirstInScope | tools/imap/src/main.rs:180-183 | Returns the index of the first identifier with the given scope, or the length. |
| Commands.FindInScope | tools/imap/src/main.rs:180-183 | The search returns `FirstInScope`. |
| Commands.RenameFirstInScope | tools/imap/src/main.rs:178-187 | Only names change. The identifier renamed is exactly the first one whose scope is the mapping's original scope; it takes the mapping's new name and every other identifier stays as it was. With no identifier in that scope, nothing changes. |
| Commands.RenameAll | tools/imap/src/main.rs:159-188 | Applying every loaded mapping keeps the list's length and each position's scope and id. |
| Commands.RenameAllShape | tools/imap/src/main.rs:159-188 | Pre-renaming keeps positions, scopes and ids. An identifier whose scope no mapping names keeps its name. Every new name is that of a mapping for the identifier's scope. |
| Commands.RenameAllAppend | tools/imap/src/main.rs:159-188 | Renaming by a concatenation is renaming by each part in turn. |
| Commands.RenameByMapFile | tools/imap/src/main.rs:178-187 | The inner loop yields `RenameAll` and `Tag` of one map file. |
| Commands.PreRename | tools/imap/src/main.rs:159-188 | The outer loop yields `RenameAll` over every loaded mapping and `TagAll` of the map files. |
| Commands.FirstConflict | tools/imap/src/main.rs:198-201 | Returns the index of the first loaded mapping that gives the pair's original scope a different new name, or the length. |
| Commands.FindConflict | tools/imap/src/main.rs:198-201 | The search returns `FirstConflict`. |
| Commands.FirstConflictingPair | tools/imap/src/main.rs:196-214 | Returns the index of the first zipped pair that some loaded mapping conflicts with, or the zip's length. |
| Commands.ZipChecked | tools/imap/src/main.rs:195-230 | Success yields one mapping per index up to the shorter list's length, pairing the original and modified identifiers at that index. A failure is a map conflict naming a loaded mapping, and an original and a modified identifier, that really conflict. |
| Commands.PairMappings | tools/imap/src/main.rs:195-230 | The pairing loop yields `ZipChecked`. |
| Commands.ZipCheckedResult | tools/imap/src/main.rs:195-230 | Pairing succeeds exactly when no loaded mapping conflicts with any pair, and then yields the zip. A failure names a loaded mapping and one of the pairs it conflicts with. |
| Commands.CreateFile | tools/imap/src/main.rs:159-230 | Create's work on one pair of files equals `CreateFileSpec`: pre-rename, difference, check, pairing. |
| Commands.CreateFileSpec | tools/imap/src/main.rs:159-230 | The only failures are a refused difference and a map conflict. Every new mapping maps an identifier absent from the modified file to one present in it. |
| Commands.CreateFileOk | tools/imap/src/main.rs:190-230 | Create succeeds on a pair of files exactly when the difference passes `check_identifiers` and no loaded mapping conflicts with any pair. |
| Commands.CreateFileMappings | tools/imap/src/main.rs:190-230 | On success there is one new mapping per pair. Each maps a renamed original identifier missing from the modified file to a modified identifier missing from the renamed original, and none conflicts with a loaded mapping. The pairs come in id order. |
| Commands.CreateConflictReported | tools/imap/src/main.rs:196-214 | A conflict is reported with a loaded mapping that causes it and the pair it conflicts with. |
| Commands.UnchangedFileNeedsNoMappings | tools/imap/src/main.rs:190-232 | A file identical to its original, with no map files, yields no new mapping. |
| Commands.CreateRun | tools/imap/src/main.rs:72-263 | The command's loop yields `CreateRunSpec`. |
| Commands.WritesMembers | tools/imap/src/main.rs:231-242 | A map file is written exactly for each file whose new mappings are not empty, under that file's stem. |
| Commands.Fold | tools/imap/src/main.rs:112-263 | When no file fails, the map files written are exactly those of `Writes`, in file order. |
| Commands.FoldNone | tools/imap/src/main.rs:112-263 | The loop finishes without error exactly when every file's outcome is a success. |
| Commands.FoldStopsAtError | tools/imap/src/main.rs:112-263 | When the loop stops with an error, it is the error of the first failing file, and the map files written are those of the files before it, in order. |
| Commands.FoldResult | tools/imap/src/main.rs:112-263 | The loop stops without error exactly when every file's outcome is a success. Each map file written holds a non-empty success of one file, under that file's stem. When the loop finishes, every file with non-empty new mappings has its map file written. |
| Commands.CreateRunResult | tools/imap/src/main.rs:72-263 | An existing output directory, or file lists of different lengths, fail with nothing written. Otherwise the command finishes exactly when every pair of files succeeds. It then writes, in file order, exactly one map file for each file with non-empty new mappings, holding them under the file's stem. When it stops, it stops at the first failing file with that file's error, having written the map files of the files before it. |
| Commands.FoldComplete | tools/imap/src/main.rs:231-242 | When Create finishes, every file whose new mappings are not empty has its map file written. |
| Commands.FoldStopsAtFile | tools/imap/src/main.rs:112-263 | When Create stops, the error is that of the first pair of files that fails, and only the files before it have been written. |
| Commands.FirstPartner | tools/imap/src/main.rs:320-343 | Returns the index of the first mapping from another map file that shares (or clashes on) the same original scope, or the length. |
| Commands.FindPartner | tools/imap/src/main.rs:320-343 | The `filter(..).any(..)` search returns `FirstPartner`. |
| Commands.CheckFrom | tools/imap/src/main.rs:317-361 | From any position, the loop only appends warnings. A failure is a conflict about one of the mappings from that position on. |
| Commands.CheckSpec | tools/imap/src/main.rs:317-361 | No mappings give no warnings. A failure is a conflict about one of the file's mappings. |
| Commands.CheckMappings | tools/imap/src/main.rs:317-361 | The loop, with its `compared` list and `continue`, yields `CheckSpec`. |
| Commands.CheckFile | tools/imap/src/main.rs:279-361 | No map file for the file is an error. Otherwise Check examines the tagged mappings of its map files. |
| Commands.CheckFromFails | tools/imap/src/main.rs:318-338 | The loop fails from a position on exactly when some later mapping clashes with one from another file, and it reports such a pair. |
| Commands.CheckFailsIffClash | tools/imap/src/main.rs:318-338 | Check fails on a file exactly when two of its mappings, from different map files, give one original scope different names, and it reports such a pair. |
| Commands.CheckFromWarnings | tools/imap/src/main.rs:339-360 | From any position, the loop keeps the warning invariant: one warning per modified scope, and each warning about a real sharing pair. |
| Commands.CheckWarnings | tools/imap/src/main.rs:317-361 | On success there is at most one warning per modified scope. The warned scopes are exactly those of mappings whose original scope another map file also maps. Each warning names such a pair of files. |
| Commands.GenerateFile | tools/imap/src/main.rs:402-439 | Generate's work on one file equals `GenerateSpec`: gather the mappings, walk with a new renamer, then apply the edits. |
| Commands.GenerateSpec | tools/imap/src/main.rs:402-439 | The missing-map-file error arises exactly when there is no map file. A result is as long as the text plus the net growth of the renamer's edits. |
| Commands.GenerateResult | tools/imap/src/main.rs:407-439 | A file with no map file is an error. Map files with no mappings give back the text. Otherwise every replacement is a loaded mapping's new name (with `#` for private names), the original text between replacements is kept, and the length changes by the edits' net growth. |
| LegacyVisitor.Step | tools/imap/src/visitor.rs:19-106 | Scope entry and exit move the depth by one and record nothing. Every other callback keeps the depth and appends exactly the names its node declares, each labelled with the current depth and its own index. |
| LegacyVisitor.Names | tools/imap/src/visitor.rs:31-106 | Scope events declare no name. A declarator, class or property declares at most its one simple name. A function or method declares its name or key and its simple parameters, and an arrow function its simple parameters. |
| LegacyVisitor.Run | tools/imap/src/visitor.rs:12-106 | A run only appends to the list. |
| LegacyVisitor.RunKeepsIndices | tools/imap/src/visitor.rs:12-15 | A run only appends, and every appended entry carries its own index. |
| LegacyVisitor.DepthCounts | tools/imap/src/visitor.rs:19-29 | The counter is a nesting depth: the starting depth plus entries minus exits. |
| LegacyVisitor.SiblingScopesShareDepth | tools/imap/src/visitor.rs:19-38 | Two sibling scopes get the same label, so the depth does not tell them apart. |
| LegacyVisitor.NoDeduplication | tools/imap/src/visitor.rs:31-106 | The same callback twice records its names twice, at the same depth. |
| LegacyVisitor.FunctionRecordedOutside | tools/imap/src/visitor.rs:40-56 | A function's name, then its parameters, are recorded at the depth outside the function, before its own scope is entered. |
| LegacyVisitor.MethodRecordedOutside | tools/imap/src/visitor.rs:80-96 | A method's key, then its parameters, are recorded at the depth outside the method, before its own scope is entered. |
| LegacyVisitor.IdentifierCollector.constructor | tools/imap/src/visitor.rs:5-9 | A new collector has no entries and depth 0. |
| LegacyVisitor.IdentifierCollector.GetIdentifierName | tools/imap/src/visitor.rs:12-15 | Returns the entry that pushing a simple binding now would append. |
| LegacyVisitor.IdentifierCollector.EnterScope | tools/imap/src/visitor.rs:19-25 | The depth rises by one. |
| LegacyVisitor.IdentifierCollector.LeaveScope | tools/imap/src/visitor.rs:27-29 | The depth falls by one. |
| LegacyVisitor.IdentifierCollector.VisitVariableDeclarator | tools/imap/src/visitor.rs:31-38 | A simple binding's name is appended at the current depth. |
| LegacyVisitor.IdentifierCollector.VisitFunction | tools/imap/src/visitor.rs:40-56 | The function's name, then its simple parameters, are appended. |
| LegacyVisitor.IdentifierCollector.VisitArrowFunctionExpression | tools/imap/src/visitor.rs:58-68 | The simple parameters are appended. |
| LegacyVisitor.IdentifierCollector.VisitClass | tools/imap/src/visitor.rs:70-78 | The class name is appended. |
| LegacyVisitor.IdentifierCollector.VisitMethodDefinition | tools/imap/src/visitor.rs:80-96 | The key's static name, then the simple parameters, are appended. |
| LegacyVisitor.IdentifierCollector.VisitPropertyDefinition | tools/imap/src/visitor.rs:98-106 | The key's static name is appended. |
| LegacyVisitor.IdentifierCollector.Walk | tools/imap/src/visitor.rs:19-106 | After a traversal the fields equal `Run` of the old state. |

## Left out

- The JavaScript parser and its AST traversal (`oxc`). A file is given as its traversal's event sequence, and the spans are taken as reported.
- File system access, JSON (de)serialization of map files, the command-line parser and coloured console output. Loaded files are parameters, and every error exit becomes an error value.
- The directory walks of `get_js_files` and `get_map_files`. `Commands.MapsFor` filters a given list of map files in a given order; the walk order itself is not modelled.
- The thin wrappers `get_identifiers` and `get_changes`. They parse, then run a visitor; the model composes `CollectRun` and `RenameRun` with the given events instead.
- Construction of paths, stems and output file names, and the directory-existence checks of Check and Generate. Create's check is kept as the `outputExists` flag.
- Commands.CreateRun: map files written earlier in the same run are not seen by later files. The store of existing map files is fixed, because the directory walk's order is not modelled.
- The outer per-file loops of Check and Generate. `Commands.CheckFile` and `Commands.GenerateFile` model the work on one file, and a run over several files is that work repeated.
- Utils.CompareIdentifiers: the order of `HashSet` iteration is not modelled. Ties on id are therefore not fixed; `Utils.HashOrderUnobservable` shows that no ties arise for collector output.
- Utils.ApplyChanges: a slice that is out of order or outside the text makes the source panic. Here that is the `Applicable` precondition, and `Commands.GenerateFile` reports it as `SliceOutOfBounds`. UTF-8 character-boundary panics are not modelled: text is a sequence of characters indexed like bytes.
- Collector.CollectStep: a property key with no static name makes the source panic on `unwrap`. Here that is the `Accepts` precondition.
- LegacyVisitor.Step: the `u32` depth counter's overflow and underflow are preconditions (`Fits`), not wrap-around.
- The older collector of `visitor.rs` is not used by the tool's entry point, so nothing in `Commands` calls `LegacyVisitor`.
- The TypeScript entry file of the tool's package is not part of this model.
