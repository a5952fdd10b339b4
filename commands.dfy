/** The list logic of the three commands of `main.rs`, over values already
    read from disk: each JavaScript file is given with the identifiers the
    collector reports for it, each source map file with the mappings it
    holds, and every place where the tool prints an error and exits becomes
    an error value. */
module Commands {
  import opened Types
  import opened Scopes
  import opened Utils
  import opened Renaming

  /** A source map file found by the directory walk: its path, the stem of
      its file name, and the mappings it holds. */
  datatype MapFile = MapFile(path: string, stem: string, mappings: seq<Mapping>)

  /** A loaded mapping with the path of the map file it came from. */
  datatype Tagged = Tagged(file: string, mapping: Mapping)

  /** A JavaScript file: its path, its file name, its stem, and the
      identifiers the collector reports for its contents. */
  datatype JsFile = JsFile(path: string, fileName: string, stem: string, identifiers: seq<Identifier>)

  /** The map files whose stem is `stem`, in walk order (get_map_files). */
  function MapsFor(store: seq<MapFile>, stem: string): (r: seq<MapFile>)
    ensures forall f :: f in r <==> f in store && f.stem == stem
    ensures |r| <= |store|
    decreases |store|
  {
    if store == [] then []
    else
      var rest := MapsFor(store[1..], stem);
      assert forall f :: f in store <==> f == store[0] || f in store[1..];
      if store[0].stem == stem then [store[0]] + rest else rest
  }

  /** Filtering keeps walk order: the map files for a stem found in one
      part of the walk come before those found in a later part. */
  lemma {:induction false} MapsForAppend(a: seq<MapFile>, b: seq<MapFile>, stem: string)
    ensures MapsFor(a + b, stem) == MapsFor(a, stem) + MapsFor(b, stem)
    decreases |a|
  {
    if a != [] {
      assert (a + b)[1..] == a[1..] + b;
      MapsForAppend(a[1..], b, stem);
    } else {
      assert a + b == b;
    }
  }

  /** All mappings of the given map files, file after file. */
  function Flatten(maps: seq<MapFile>): seq<Mapping>
    decreases |maps|
  {
    if maps == [] then [] else Flatten(maps[..|maps| - 1]) + maps[|maps| - 1].mappings
  }

  /** The mappings of one file, each tagged with the file's path. */
  function Tag(path: string, ms: seq<Mapping>): seq<Tagged> {
    seq(|ms|, i requires 0 <= i < |ms| => Tagged(path, ms[i]))
  }

  /** All mappings of the given map files, tagged, file after file. */
  function TagAll(maps: seq<MapFile>): seq<Tagged>
    decreases |maps|
  {
    if maps == [] then []
    else TagAll(maps[..|maps| - 1]) + Tag(maps[|maps| - 1].path, maps[|maps| - 1].mappings)
  }

  /** Concatenation keeps file order. */
  lemma {:induction false} FlattenAppend(a: seq<MapFile>, b: seq<MapFile>)
    ensures Flatten(a + b) == Flatten(a) + Flatten(b)
    decreases |b|
  {
    if b != [] {
      var n := |b| - 1;
      assert (a + b)[..|a + b| - 1] == a + b[..n];
      FlattenAppend(a, b[..n]);
    } else {
      assert a + b == a;
    }
  }

  /** A mapping is loaded exactly when some map file holds it. */
  lemma {:induction false} FlattenMembers(maps: seq<MapFile>)
    ensures forall m :: m in Flatten(maps) <==> exists f :: f in maps && m in f.mappings
    decreases |maps|
  {
    if maps != [] {
      var n := |maps| - 1;
      FlattenMembers(maps[..n]);
      assert forall f :: f in maps <==> f in maps[..n] || f == maps[n];
    }
  }

  /** The tagged list pairs every loaded mapping, in the same order, with
      the path of a map file that holds it. */
  lemma {:induction false} TagAllMatchesFlatten(maps: seq<MapFile>)
    ensures |TagAll(maps)| == |Flatten(maps)|
    ensures forall i :: 0 <= i < |TagAll(maps)| ==> TagAll(maps)[i].mapping == Flatten(maps)[i]
    ensures forall t :: t in TagAll(maps) ==> exists f :: f in maps && f.path == t.file && t.mapping in f.mappings
    decreases |maps|
  {
    if maps != [] {
      var n := |maps| - 1;
      TagAllMatchesFlatten(maps[..n]);
      var last := maps[n];
      forall t | t in TagAll(maps)
        ensures exists f :: f in maps && f.path == t.file && t.mapping in f.mappings
      {
        if t in TagAll(maps[..n]) {
          var f :| f in maps[..n] && f.path == t.file && t.mapping in f.mappings;
          assert f in maps;
        } else {
          var j :| 0 <= j < |Tag(last.path, last.mappings)| && Tag(last.path, last.mappings)[j] == t;
          assert last in maps;
        }
      }
    }
  }

  /** Collecting the mappings of a file's map files (`mappings.extend` in
      Generate). */
  method GatherMappings(maps: seq<MapFile>) returns (ms: seq<Mapping>)
    ensures ms == Flatten(maps)
  {
    ms := [];
    for f := 0 to |maps|
      invariant ms == Flatten(maps[..f])
    {
      assert maps[..f + 1][..f] == maps[..f];
      ms := ms + maps[f].mappings;
    }
    assert maps[..|maps|] == maps;
  }

  /** Collecting the mappings of a file's map files, tagged with their
      file's path (the `mappings.push((file, mapping))` loops). */
  method GatherTagged(maps: seq<MapFile>) returns (tagged: seq<Tagged>)
    ensures tagged == TagAll(maps)
  {
    tagged := [];
    for f := 0 to |maps|
      invariant tagged == TagAll(maps[..f])
    {
      var file := maps[f];
      var before := tagged;
      for j := 0 to |file.mappings|
        invariant tagged == before + Tag(file.path, file.mappings[..j])
      {
        assert Tag(file.path, file.mappings[..j + 1]) == Tag(file.path, file.mappings[..j]) + [Tagged(file.path, file.mappings[j])];
        tagged := tagged + [Tagged(file.path, file.mappings[j])];
      }
      assert file.mappings[..|file.mappings|] == file.mappings;
      assert maps[..f + 1][..f] == maps[..f];
    }
    assert maps[..|maps|] == maps;
  }

  // ---------------------------------------------------------------------
  // Create: renaming the original identifiers by the loaded mappings

  /** Index of the first identifier attributed to `scope`, or |ids|. */
  function FirstInScope(ids: seq<Identifier>, scope: nat): (k: nat)
    ensures k <= |ids|
    ensures forall i :: 0 <= i < k ==> ids[i].scopeId != scope
    ensures k < |ids| ==> ids[k].scopeId == scope
    decreases |ids|
  {
    if ids == [] then 0
    else if ids[0].scopeId == scope then 0
    else 1 + FirstInScope(ids[1..], scope)
  }

  lemma FirstInScopeUnique(ids: seq<Identifier>, scope: nat, k: nat)
    requires k <= |ids|
    requires forall i :: 0 <= i < k ==> ids[i].scopeId != scope
    requires k < |ids| ==> ids[k].scopeId == scope
    ensures FirstInScope(ids, scope) == k
  {
  }

  /** The `iter_mut().find` on the original identifiers. */
  method FindInScope(ids: seq<Identifier>, scope: nat) returns (k: nat)
    ensures k == FirstInScope(ids, scope)
  {
    k := 0;
    while k < |ids| && ids[k].scopeId != scope
      invariant k <= |ids|
      invariant forall i :: 0 <= i < k ==> ids[i].scopeId != scope
    {
      k := k + 1;
    }
    FirstInScopeUnique(ids, scope, k);
  }

  /** One loaded mapping applied to the original identifiers: the first
      identifier in the mapping's original scope, whatever its name, takes
      the mapping's modified name; nothing else changes. */
  function RenameFirstInScope(ids: seq<Identifier>, m: Mapping): (r: seq<Identifier>)
    ensures |r| == |ids|
    ensures forall i :: 0 <= i < |ids| ==> r[i].scopeId == ids[i].scopeId && r[i].id == ids[i].id
    ensures forall i :: 0 <= i < |ids| && ids[i].scopeId != m.original.scopeId ==> r[i] == ids[i]
    ensures forall i, j :: 0 <= i < j < |ids| && r[i] != ids[i] ==> r[j] == ids[j]
    ensures forall i :: 0 <= i < |ids| && r[i] != ids[i] ==> r[i].name == m.modified.name
    ensures (exists i :: 0 <= i < |ids| && ids[i].scopeId == m.original.scopeId) ==>
              exists i :: 0 <= i < |ids| && ids[i].scopeId == m.original.scopeId && r[i].name == m.modified.name
    ensures var k := FirstInScope(ids, m.original.scopeId);
            && (forall i :: 0 <= i < |ids| && i != k ==> r[i] == ids[i])
            && (k < |ids| ==> r[k] == ids[k].(name := m.modified.name))
  {
    var k := FirstInScope(ids, m.original.scopeId);
    if k < |ids| then ids[k := ids[k].(name := m.modified.name)] else ids
  }

  /** Every loaded mapping applied in order. */
  function RenameAll(ids: seq<Identifier>, ms: seq<Mapping>): (r: seq<Identifier>)
    ensures |r| == |ids|
    ensures forall i :: 0 <= i < |ids| ==> r[i].scopeId == ids[i].scopeId && r[i].id == ids[i].id
    decreases |ms|
  {
    if ms == [] then ids else RenameFirstInScope(RenameAll(ids, ms[..|ms| - 1]), ms[|ms| - 1])
  }

  /** Pre-renaming changes names only: positions, scopes and ids stay, an
      identifier whose scope no mapping names keeps its name, and any new
      name is the modified name of a mapping for the identifier's scope. */
  lemma {:induction false} RenameAllShape(ids: seq<Identifier>, ms: seq<Mapping>)
    ensures |RenameAll(ids, ms)| == |ids|
    ensures forall i :: 0 <= i < |ids| ==>
              RenameAll(ids, ms)[i].scopeId == ids[i].scopeId && RenameAll(ids, ms)[i].id == ids[i].id
    ensures forall i :: 0 <= i < |ids| && (forall j :: 0 <= j < |ms| ==> ms[j].original.scopeId != ids[i].scopeId) ==>
              RenameAll(ids, ms)[i] == ids[i]
    ensures forall i :: 0 <= i < |ids| && RenameAll(ids, ms)[i] != ids[i] ==>
              exists j :: 0 <= j < |ms| && ms[j].original.scopeId == ids[i].scopeId &&
                          RenameAll(ids, ms)[i].name == ms[j].modified.name
    decreases |ms|
  {
    if ms != [] {
      var n := |ms| - 1;
      var before := RenameAll(ids, ms[..n]);
      RenameAllShape(ids, ms[..n]);
      var r := RenameAll(ids, ms);
      assert r == RenameFirstInScope(before, ms[n]);
      forall i | 0 <= i < |ids| && r[i] != ids[i]
        ensures exists j :: 0 <= j < |ms| && ms[j].original.scopeId == ids[i].scopeId && r[i].name == ms[j].modified.name
      {
        if r[i] != before[i] {
          assert r[i].name == ms[n].modified.name;
        } else {
          var j :| 0 <= j < n && ms[..n][j].original.scopeId == ids[i].scopeId && before[i].name == ms[..n][j].modified.name;
          assert ms[j] == ms[..n][j];
        }
      }
      forall i | 0 <= i < |ids| && (forall j :: 0 <= j < |ms| ==> ms[j].original.scopeId != ids[i].scopeId)
        ensures r[i] == ids[i]
      {
        forall j | 0 <= j < n
          ensures ms[..n][j].original.scopeId != ids[i].scopeId
        {
          assert ms[..n][j] == ms[j];
        }
      }
    }
  }

  /** Renaming by a concatenation renames by the first part, then the second. */
  lemma {:induction false} RenameAllAppend(ids: seq<Identifier>, a: seq<Mapping>, b: seq<Mapping>)
    ensures RenameAll(ids, a + b) == RenameAll(RenameAll(ids, a), b)
    decreases |b|
  {
    if b == [] {
      assert a + b == a;
    } else {
      var n := |b| - 1;
      assert (a + b)[..|a + b| - 1] == a + b[..n];
      assert (a + b)[|a + b| - 1] == b[n];
      RenameAllAppend(ids, a, b[..n]);
    }
  }

  /** The inner pre-renaming loop of Create, over the mappings of one map file. */
  method RenameByMapFile(ids: seq<Identifier>, file: MapFile) returns (renamed: seq<Identifier>, tagged: seq<Tagged>)
    ensures renamed == RenameAll(ids, file.mappings)
    ensures tagged == Tag(file.path, file.mappings)
  {
    renamed, tagged := ids, [];
    for j := 0 to |file.mappings|
      invariant renamed == RenameAll(ids, file.mappings[..j])
      invariant tagged == Tag(file.path, file.mappings[..j])
    {
      var m := file.mappings[j];
      var k := FindInScope(renamed, m.original.scopeId);
      if k < |renamed| {
        renamed := renamed[k := renamed[k].(name := m.modified.name)];
      }
      tagged := tagged + [Tagged(file.path, m)];
      assert file.mappings[..j + 1][..j] == file.mappings[..j];
      assert Tag(file.path, file.mappings[..j + 1]) == Tag(file.path, file.mappings[..j]) + [Tagged(file.path, m)];
    }
    assert file.mappings[..|file.mappings|] == file.mappings;
  }

  /** The pre-renaming loop of Create: every mapping of every map file, in
      order, renames the first original identifier in its original scope,
      and is recorded with the path of its file. */
  method PreRename(original: seq<Identifier>, maps: seq<MapFile>) returns (renamed: seq<Identifier>, tagged: seq<Tagged>)
    ensures renamed == RenameAll(original, Flatten(maps))
    ensures tagged == TagAll(maps)
  {
    renamed, tagged := original, [];
    for f := 0 to |maps|
      invariant renamed == RenameAll(original, Flatten(maps[..f]))
      invariant tagged == TagAll(maps[..f])
    {
      var fileRenamed, fileTagged := RenameByMapFile(renamed, maps[f]);
      RenameAllAppend(original, Flatten(maps[..f]), maps[f].mappings);
      assert maps[..f + 1][..f] == maps[..f];
      renamed := fileRenamed;
      tagged := tagged + fileTagged;
    }
    assert maps[..|maps|] == maps;
  }

  // ---------------------------------------------------------------------
  // Create: pairing the difference into new mappings

  /** An existing mapping conflicts with a new pair when it maps the
      pair's original scope to another name; the original name is not
      compared. */
  predicate Conflicts(t: Tagged, original: Identifier, modified: Identifier) {
    t.mapping.original.scopeId == original.scopeId && t.mapping.modified.name != modified.name
  }

  /** Index of the first existing mapping that conflicts with the pair, or |tagged|. */
  function FirstConflict(tagged: seq<Tagged>, original: Identifier, modified: Identifier): (k: nat)
    ensures k <= |tagged|
    ensures forall j :: 0 <= j < k ==> !Conflicts(tagged[j], original, modified)
    ensures k < |tagged| ==> Conflicts(tagged[k], original, modified)
    decreases |tagged|
  {
    if tagged == [] then 0
    else if Conflicts(tagged[0], original, modified) then 0
    else 1 + FirstConflict(tagged[1..], original, modified)
  }

  lemma FirstConflictUnique(tagged: seq<Tagged>, original: Identifier, modified: Identifier, k: nat)
    requires k <= |tagged|
    requires forall j :: 0 <= j < k ==> !Conflicts(tagged[j], original, modified)
    requires k < |tagged| ==> Conflicts(tagged[k], original, modified)
    ensures FirstConflict(tagged, original, modified) == k
  {
  }

  /** The `mappings.iter().find` for a conflicting mapping. */
  method FindConflict(tagged: seq<Tagged>, original: Identifier, modified: Identifier) returns (k: nat)
    ensures k == FirstConflict(tagged, original, modified)
  {
    k := 0;
    while k < |tagged| && !Conflicts(tagged[k], original, modified)
      invariant k <= |tagged|
      invariant forall j :: 0 <= j < k ==> !Conflicts(tagged[j], original, modified)
    {
      k := k + 1;
    }
    FirstConflictUnique(tagged, original, modified, k);
  }

  function MinLen<A, B>(a: seq<A>, b: seq<B>): nat {
    if |a| < |b| then |a| else |b|
  }

  /** Index of the first zipped pair some existing mapping conflicts with,
      or the length of the zip. */
  function FirstConflictingPair(tagged: seq<Tagged>, origs: seq<Identifier>, mods: seq<Identifier>): (i: nat)
    ensures i <= MinLen(origs, mods)
    ensures forall j :: 0 <= j < i ==> FirstConflict(tagged, origs[j], mods[j]) == |tagged|
    ensures i < MinLen(origs, mods) ==> FirstConflict(tagged, origs[i], mods[i]) < |tagged|
    decreases |origs|
  {
    if origs == [] || mods == [] then 0
    else if FirstConflict(tagged, origs[0], mods[0]) < |tagged| then 0
    else 1 + FirstConflictingPair(tagged, origs[1..], mods[1..])
  }

  lemma FirstConflictingPairUnique(tagged: seq<Tagged>, origs: seq<Identifier>, mods: seq<Identifier>, i: nat)
    requires i <= MinLen(origs, mods)
    requires forall j :: 0 <= j < i ==> FirstConflict(tagged, origs[j], mods[j]) == |tagged|
    requires i < MinLen(origs, mods) ==> FirstConflict(tagged, origs[i], mods[i]) < |tagged|
    ensures FirstConflictingPair(tagged, origs, mods) == i
  {
  }

  /** The index-wise zip of the original and modified differences. */
  function Zip(origs: seq<Identifier>, mods: seq<Identifier>): seq<Mapping> {
    seq(MinLen(origs, mods), i requires 0 <= i < MinLen(origs, mods) => Mapping(origs[i], mods[i]))
  }

  datatype CreateError =
    | OutputExists                                       // the output directory is already there
    | FileCountMismatch(modifiedCount: nat, originalCount: nat)
    | FileNameMismatch(modifiedPath: string, originalPath: string)
    | IdentifierMismatch(error: CheckError)              // check_identifiers refused the difference
    | MapConflict(mapFile: string, existing: Mapping, original: Identifier, modified: Identifier)

  /** The new mappings from the zipped pairs, or the first conflict with an
      existing mapping. */
  function ZipChecked(tagged: seq<Tagged>, origs: seq<Identifier>, mods: seq<Identifier>)
    : (r: Result<seq<Mapping>, CreateError>)
    ensures r.Ok? ==> |r.value| == MinLen(origs, mods) &&
                      forall i :: 0 <= i < |r.value| ==> r.value[i] == Mapping(origs[i], mods[i])
    ensures r.Err? ==> r.error.MapConflict? && Tagged(r.error.mapFile, r.error.existing) in tagged &&
                       r.error.original in origs && r.error.modified in mods &&
                       Conflicts(Tagged(r.error.mapFile, r.error.existing), r.error.original, r.error.modified)
  {
    var i := FirstConflictingPair(tagged, origs, mods);
    if i < MinLen(origs, mods) then
      var k := FirstConflict(tagged, origs[i], mods[i]);
      Err(MapConflict(tagged[k].file, tagged[k].mapping, origs[i], mods[i]))
    else Ok(Zip(origs, mods))
  }

  /** The pairing loop of Create. */
  method PairMappings(tagged: seq<Tagged>, origs: seq<Identifier>, mods: seq<Identifier>)
    returns (r: Result<seq<Mapping>, CreateError>)
    ensures r == ZipChecked(tagged, origs, mods)
  {
    var n := MinLen(origs, mods);
    var newMappings: seq<Mapping> := [];
    for i := 0 to n
      invariant |newMappings| == i
      invariant forall j :: 0 <= j < i ==> newMappings[j] == Mapping(origs[j], mods[j])
      invariant forall j :: 0 <= j < i ==> FirstConflict(tagged, origs[j], mods[j]) == |tagged|
    {
      var k := FindConflict(tagged, origs[i], mods[i]);
      if k < |tagged| {
        FirstConflictingPairUnique(tagged, origs, mods, i);
        return Err(MapConflict(tagged[k].file, tagged[k].mapping, origs[i], mods[i]));
      }
      newMappings := newMappings + [Mapping(origs[i], mods[i])];
    }
    FirstConflictingPairUnique(tagged, origs, mods, n);
    assert newMappings == Zip(origs, mods);
    r := Ok(newMappings);
  }

  /** What Create computes for one pair of files: the original identifiers
      renamed by the loaded mappings, the two-way difference with the
      modified identifiers, its check, and the new mappings. */
  function CreateFileSpec(modifiedIds: seq<Identifier>, originalIds: seq<Identifier>, maps: seq<MapFile>)
    : (r: Result<seq<Mapping>, CreateError>)
    ensures r.Err? ==> r.error.IdentifierMismatch? || r.error.MapConflict?
    ensures r.Ok? ==> forall m :: m in r.value ==> m.modified in modifiedIds && m.original !in modifiedIds
  {
    var renamed := RenameAll(originalIds, Flatten(maps));
    var d := CompareIdentifiers(modifiedIds, renamed);
    var check := CheckIdentifiers(d.0, d.1);
    if check.Fail? then Err(IdentifierMismatch(check.error))
    else ZipChecked(TagAll(maps), d.1, d.0)
  }

  /** Create's work on one pair of files. */
  method CreateFile(modifiedIds: seq<Identifier>, originalIds: seq<Identifier>, maps: seq<MapFile>)
    returns (r: Result<seq<Mapping>, CreateError>)
    ensures r == CreateFileSpec(modifiedIds, originalIds, maps)
  {
    var renamed, tagged := PreRename(originalIds, maps);
    var d := CompareIdentifiers(modifiedIds, renamed);
    var onlyInModified, onlyInOriginal := d.0, d.1;
    var check := CheckIdentifiers(onlyInModified, onlyInOriginal);
    if check.Fail? {
      return Err(IdentifierMismatch(check.error));
    }
    r := PairMappings(tagged, onlyInOriginal, onlyInModified);
  }

  /** The pairing succeeds exactly when no loaded mapping conflicts with
      any pair; it then yields the zip, and otherwise reports a loaded
      mapping that conflicts with a pair. */
  lemma ZipCheckedResult(tagged: seq<Tagged>, origs: seq<Identifier>, mods: seq<Identifier>)
    ensures ZipChecked(tagged, origs, mods).Ok? <==>
              forall i, t :: 0 <= i < MinLen(origs, mods) && t in tagged ==> !Conflicts(t, origs[i], mods[i])
    ensures ZipChecked(tagged, origs, mods).Ok? ==> ZipChecked(tagged, origs, mods).value == Zip(origs, mods)
    ensures var r := ZipChecked(tagged, origs, mods);
            r.Err? ==>
              && r.error.MapConflict?
              && Tagged(r.error.mapFile, r.error.existing) in tagged
              && Conflicts(Tagged(r.error.mapFile, r.error.existing), r.error.original, r.error.modified)
              && exists i :: 0 <= i < MinLen(origs, mods) && r.error.original == origs[i] && r.error.modified == mods[i]
  {
    var p := FirstConflictingPair(tagged, origs, mods);
    if p < MinLen(origs, mods) {
      var k := FirstConflict(tagged, origs[p], mods[p]);
      assert tagged[k] == Tagged(tagged[k].file, tagged[k].mapping);
      assert tagged[k] in tagged;
    } else {
      forall i, t | 0 <= i < MinLen(origs, mods) && t in tagged
        ensures !Conflicts(t, origs[i], mods[i])
      {
        assert FirstConflict(tagged, origs[i], mods[i]) == |tagged|;
        var j :| 0 <= j < |tagged| && tagged[j] == t;
      }
    }
  }

  /** Create succeeds on a pair of files exactly when the difference
      passes the check and no loaded mapping conflicts with any pair of
      the zip. */
  lemma CreateFileOk(modifiedIds: seq<Identifier>, originalIds: seq<Identifier>, maps: seq<MapFile>)
    ensures var d := CompareIdentifiers(modifiedIds, RenameAll(originalIds, Flatten(maps)));
            CreateFileSpec(modifiedIds, originalIds, maps).Ok? <==>
              CheckIdentifiers(d.0, d.1).Pass? &&
              forall i, t :: 0 <= i < |d.1| && i < |d.0| && t in TagAll(maps) ==> !Conflicts(t, d.1[i], d.0[i])
  {
    var d := CompareIdentifiers(modifiedIds, RenameAll(originalIds, Flatten(maps)));
    var r := CreateFileSpec(modifiedIds, originalIds, maps);
    if CheckIdentifiers(d.0, d.1).Pass? {
      assert r == ZipChecked(TagAll(maps), d.1, d.0);
      assert MinLen(d.1, d.0) == |d.1| == |d.0|;
      ZipCheckedResult(TagAll(maps), d.1, d.0);
    }
  }

  /** Create's new mappings for a pair of files, one for one and in
      id order, the renamed original identifiers missing from the modified
      file with the modified identifiers missing from the renamed original
      file; none conflicts with a loaded mapping. */
  lemma CreateFileMappings(modifiedIds: seq<Identifier>, originalIds: seq<Identifier>, maps: seq<MapFile>)
    ensures var renamed := RenameAll(originalIds, Flatten(maps));
            var d := CompareIdentifiers(modifiedIds, renamed);
            var r := CreateFileSpec(modifiedIds, originalIds, maps);
            r.Ok? ==>
              && |r.value| == |d.0| == |d.1|
              && (forall m :: m in r.value ==>
                    && m.original in renamed && m.original !in modifiedIds
                    && m.modified in modifiedIds && m.modified !in renamed
                    && forall t :: t in TagAll(maps) ==> !Conflicts(t, m.original, m.modified))
              && (forall i, j :: 0 <= i < j < |r.value| ==>
                    r.value[i].original.id <= r.value[j].original.id && r.value[i].modified.id <= r.value[j].modified.id)
  {
    var renamed := RenameAll(originalIds, Flatten(maps));
    var d := CompareIdentifiers(modifiedIds, renamed);
    var r := CreateFileSpec(modifiedIds, originalIds, maps);
    if r.Ok? {
      ZipCheckedResult(TagAll(maps), d.1, d.0);
      assert r.value == Zip(d.1, d.0);
      forall m | m in r.value
        ensures m.original in d.1 && m.modified in d.0
        ensures forall t :: t in TagAll(maps) ==> !Conflicts(t, m.original, m.modified)
      {
        var i :| 0 <= i < |r.value| && r.value[i] == m;
      }
    }
  }

  /** A conflict is reported with a loaded mapping that causes it and the
      pair it conflicts with. */
  lemma CreateConflictReported(modifiedIds: seq<Identifier>, originalIds: seq<Identifier>, maps: seq<MapFile>)
    ensures var r := CreateFileSpec(modifiedIds, originalIds, maps);
            r.Err? && r.error.MapConflict? ==>
              Conflicts(Tagged(r.error.mapFile, r.error.existing), r.error.original, r.error.modified) &&
              Tagged(r.error.mapFile, r.error.existing) in TagAll(maps)
  {
    var d := CompareIdentifiers(modifiedIds, RenameAll(originalIds, Flatten(maps)));
    var r := CreateFileSpec(modifiedIds, originalIds, maps);
    if CheckIdentifiers(d.0, d.1).Pass? {
      assert r == ZipChecked(TagAll(maps), d.1, d.0);
      assert MinLen(d.1, d.0) == |d.1| == |d.0|;
      ZipCheckedResult(TagAll(maps), d.1, d.0);
    }
  }

  /** An unchanged file with no map files yields no new mappings. */
  lemma UnchangedFileNeedsNoMappings(ids: seq<Identifier>)
    ensures CreateFileSpec(ids, ids, []) == Ok([])
  {
    var d := CompareIdentifiers(ids, ids);
    NonEmptyHasHead(d.0);
    NonEmptyHasHead(d.1);
    assert d.0 == [] && d.1 == [];
    assert Zip([], []) == [];
  }

  // ---------------------------------------------------------------------
  // Create: the run over all files

  /** A source map file written by Create: the stem it is named after and
      the new mappings it holds. */
  datatype MapWrite = MapWrite(stem: string, mappings: seq<Mapping>)

  /** Create's outcome for the pair of files at one index. */
  function CreateOne(m: JsFile, o: JsFile, store: seq<MapFile>): Result<seq<Mapping>, CreateError> {
    if m.fileName != o.fileName then Err(FileNameMismatch(m.path, o.path))
    else CreateFileSpec(m.identifiers, o.identifiers, MapsFor(store, m.stem))
  }

  /** Each modified file's stem with Create's outcome for its pair. */
  function Outcomes(mods: seq<JsFile>, origs: seq<JsFile>, store: seq<MapFile>): seq<(string, Result<seq<Mapping>, CreateError>)>
    requires |mods| == |origs|
  {
    seq(|mods|, i requires 0 <= i < |mods| => (mods[i].stem, CreateOne(mods[i], origs[i], store)))
  }

  /** The map file Create writes for one file's outcome: one for new
      mappings that are not empty, none otherwise. */
  function WriteOf(step: (string, Result<seq<Mapping>, CreateError>)): seq<MapWrite> {
    if step.1.Ok? && step.1.value != [] then [MapWrite(step.0, step.1.value)] else []
  }

  /** The map files written for the given outcomes, in file order: one for
      each file whose new mappings are not empty. */
  function Writes(steps: seq<(string, Result<seq<Mapping>, CreateError>)>): (r: seq<MapWrite>)
    ensures |r| <= |steps|
    decreases |steps|
  {
    if steps == [] then [] else WriteOf(steps[0]) + Writes(steps[1..])
  }

  /** A map file is written exactly for each file with non-empty new mappings. */
  lemma {:induction false} WritesMembers(steps: seq<(string, Result<seq<Mapping>, CreateError>)>)
    ensures forall w :: w in Writes(steps) <==>
              w.mappings != [] && exists k :: 0 <= k < |steps| && steps[k] == (w.stem, Ok(w.mappings))
    decreases |steps|
  {
    if steps != [] {
      WritesMembers(steps[1..]);
      assert forall k :: 0 < k < |steps| ==> steps[k] == steps[1..][k - 1];
      assert forall k :: 0 <= k < |steps| - 1 ==> steps[1..][k] == steps[k + 1];
    }
  }

  lemma {:induction false} WritesSnoc(steps: seq<(string, Result<seq<Mapping>, CreateError>)>, x: (string, Result<seq<Mapping>, CreateError>))
    ensures Writes(steps + [x]) == Writes(steps) + WriteOf(x)
    decreases |steps|
  {
    if steps == [] {
      assert [x][1..] == [];
    } else {
      assert (steps + [x])[1..] == steps[1..] + [x];
      WritesSnoc(steps[1..], x);
      var a, b, c := WriteOf(steps[0]), Writes(steps[1..]), WriteOf(x);
      assert a + (b + c) == (a + b) + c;
    }
  }

  /** The files Create handles in turn, given their outcomes: the map
      files written, and the error that stopped it, if any. */
  function Fold(steps: seq<(string, Result<seq<Mapping>, CreateError>)>): (r: (seq<MapWrite>, Option<CreateError>))
    ensures r.1.None? ==> r.0 == Writes(steps)
    decreases |steps|
  {
    if steps == [] then ([], None)
    else
      var n := |steps| - 1;
      var before := Fold(steps[..n]);
      if before.1.Some? then before
      else
        assert steps[..n] + [steps[n]] == steps;
        WritesSnoc(steps[..n], steps[n]);
        match steps[n].1
        case Err(e) => (before.0, Some(e))
        case Ok(ms) => (if ms == [] then before.0 else before.0 + [MapWrite(steps[n].0, ms)], None)
  }

  /** When a file fails, Create stops there: the map files written are
      those of the files before it, and the error is that file's. */
  lemma {:induction false} FoldStopsAtError(steps: seq<(string, Result<seq<Mapping>, CreateError>)>)
    ensures Fold(steps).1.Some? ==>
              exists k :: 0 <= k < |steps| && steps[k].1.Err? &&
                (forall j :: 0 <= j < k ==> steps[j].1.Ok?) &&
                Fold(steps) == (Writes(steps[..k]), Some(steps[k].1.error))
    decreases |steps|
  {
    if steps != [] {
      var n := |steps| - 1;
      var p := steps[..n];
      FoldStopsAtError(p);
      FoldLast(steps);
      if Fold(p).1.Some? {
        var k :| 0 <= k < |p| && p[k].1.Err? && (forall j :: 0 <= j < k ==> p[j].1.Ok?) &&
                 Fold(p) == (Writes(p[..k]), Some(p[k].1.error));
        assert p[..k] == steps[..k];
        assert forall j :: 0 <= j <= k ==> p[j] == steps[j];
      } else if steps[n].1.Err? {
        FoldNone(p);
        assert forall j :: 0 <= j < n ==> p[j] == steps[j];
      }
    }
  }

  /** The whole Create command, given whether the output directory already
      exists, the modified and original files in walk order, and the map
      files already present. */
  function CreateRunSpec(outputExists: bool, mods: seq<JsFile>, origs: seq<JsFile>, store: seq<MapFile>)
    : (seq<MapWrite>, Option<CreateError>)
  {
    if outputExists then ([], Some(OutputExists))
    else if |mods| != |origs| then ([], Some(FileCountMismatch(|mods|, |origs|)))
    else Fold(Outcomes(mods, origs, store))
  }

  lemma {:induction false} FoldStops(steps: seq<(string, Result<seq<Mapping>, CreateError>)>, i: nat, j: nat)
    requires i <= j <= |steps|
    requires Fold(steps[..i]).1.Some?
    ensures Fold(steps[..j]) == Fold(steps[..i])
    decreases j
  {
    if i < j {
      FoldStops(steps, i, j - 1);
      assert steps[..j][..j - 1] == steps[..j - 1];
    }
  }

  /** One more file after the ones that all succeeded. */
  lemma FoldNext(steps: seq<(string, Result<seq<Mapping>, CreateError>)>, i: nat)
    requires i < |steps| && Fold(steps[..i]).1.None?
    ensures steps[i].1.Err? ==> Fold(steps[..i + 1]) == (Fold(steps[..i]).0, Some(steps[i].1.error))
    ensures steps[i].1.Ok? && steps[i].1.value == [] ==> Fold(steps[..i + 1]) == (Fold(steps[..i]).0, None)
    ensures steps[i].1.Ok? && steps[i].1.value != [] ==>
              Fold(steps[..i + 1]) == (Fold(steps[..i]).0 + [MapWrite(steps[i].0, steps[i].1.value)], None)
  {
    assert steps[..i + 1][..i] == steps[..i];
    assert steps[..i + 1][i] == steps[i];
  }

  /** The Create command. */
  method CreateRun(outputExists: bool, mods: seq<JsFile>, origs: seq<JsFile>, store: seq<MapFile>)
    returns (written: seq<MapWrite>, failure: Option<CreateError>)
    ensures (written, failure) == CreateRunSpec(outputExists, mods, origs, store)
  {
    if outputExists {
      return [], Some(OutputExists);
    }
    if |mods| != |origs| {
      return [], Some(FileCountMismatch(|mods|, |origs|));
    }
    ghost var steps := Outcomes(mods, origs, store);
    written, failure := [], None;
    var i := 0;
    while i < |mods| && failure.None?
      invariant i <= |mods|
      invariant (written, failure) == Fold(steps[..i])
    {
      var m, o := mods[i], origs[i];
      FoldNext(steps, i);
      assert steps[i] == (m.stem, CreateOne(m, o, store));
      if m.fileName != o.fileName {
        failure := Some(FileNameMismatch(m.path, o.path));
      } else {
        var r := CreateFile(m.identifiers, o.identifiers, MapsFor(store, m.stem));
        match r {
          case Err(e) => failure := Some(e);
          case Ok(ms) =>
            if ms != [] {
              written := written + [MapWrite(m.stem, ms)];
            }
        }
      }
      i := i + 1;
    }
    if failure.Some? {
      FoldStops(steps, i, |mods|);
    }
    assert steps[..|mods|] == steps;
  }

  /** How the last file's outcome decides whether Create stops. */
  lemma FoldLast(steps: seq<(string, Result<seq<Mapping>, CreateError>)>)
    requires steps != []
    ensures var p := Fold(steps[..|steps| - 1]);
            Fold(steps).1 == if p.1.Some? then p.1
                             else if steps[|steps| - 1].1.Err? then Some(steps[|steps| - 1].1.error)
                             else None
    ensures Fold(steps[..|steps| - 1]).1.Some? ==> Fold(steps) == Fold(steps[..|steps| - 1])
    ensures Fold(steps[..|steps| - 1]).1.None? && steps[|steps| - 1].1.Err? ==>
              Fold(steps) == (Fold(steps[..|steps| - 1]).0, Some(steps[|steps| - 1].1.error))
  {
  }

  /** Create gets through all files exactly when none fails. */
  lemma {:induction false} FoldNone(steps: seq<(string, Result<seq<Mapping>, CreateError>)>)
    ensures Fold(steps).1.None? <==> forall k :: 0 <= k < |steps| ==> steps[k].1.Ok?
    decreases |steps|
  {
    if steps != [] {
      var n := |steps| - 1;
      var p := steps[..n];
      FoldNone(p);
      FoldLast(steps);
      if Fold(p).1.Some? {
        var k :| 0 <= k < |p| && !p[k].1.Ok?;
        assert steps[k] == p[k];
        assert Fold(steps).1.Some?;
      } else {
        if steps[n].1.Ok? {
          forall k | 0 <= k < |steps|
            ensures steps[k].1.Ok?
          {
            if k < n {
              assert steps[k] == p[k];
            }
          }
        }
      }
    }
  }

  lemma FoldResult(steps: seq<(string, Result<seq<Mapping>, CreateError>)>)
    ensures Fold(steps).1.None? <==> forall k :: 0 <= k < |steps| ==> steps[k].1.Ok?
    ensures |Fold(steps).0| <= |steps|
    ensures forall w :: w in Fold(steps).0 ==>
              (w.mappings != [] && exists k :: 0 <= k < |steps| && steps[k] == (w.stem, Ok(w.mappings)))
    ensures Fold(steps).1.None? ==>
              forall k :: 0 <= k < |steps| && steps[k].1.Ok? && steps[k].1.value != [] ==>
                MapWrite(steps[k].0, steps[k].1.value) in Fold(steps).0
  {
    FoldNone(steps);
    FoldStopsAtError(steps);
    if Fold(steps).1.Some? {
      var k :| 0 <= k < |steps| && steps[k].1.Err? &&
               (forall j :: 0 <= j < k ==> steps[j].1.Ok?) &&
               Fold(steps) == (Writes(steps[..k]), Some(steps[k].1.error));
      WritesMembers(steps[..k]);
      assert forall j :: 0 <= j < k ==> steps[..k][j] == steps[j];
    } else {
      WritesMembers(steps);
      forall k | 0 <= k < |steps| && steps[k].1.Ok? && steps[k].1.value != []
        ensures MapWrite(steps[k].0, steps[k].1.value) in Fold(steps).0
      {
        assert steps[k] == (steps[k].0, Ok(steps[k].1.value));
      }
    }
  }

  /** Create refuses to run over an existing output directory or over file
      lists of different lengths, writing nothing; otherwise it finishes
      exactly when every pair of files has the same file name and yields
      new mappings, and it writes a map file only for new mappings that
      are not empty, each one Create's result for one of the files. */
  lemma CreateRunResult(outputExists: bool, mods: seq<JsFile>, origs: seq<JsFile>, store: seq<MapFile>)
    ensures var r := CreateRunSpec(outputExists, mods, origs, store);
            && (outputExists ==> r == ([], Some(OutputExists)))
            && (!outputExists && |mods| != |origs| ==> r == ([], Some(FileCountMismatch(|mods|, |origs|))))
            && (r.1.None? <==>
                  !outputExists && |mods| == |origs| &&
                  forall i :: 0 <= i < |mods| ==> CreateOne(mods[i], origs[i], store).Ok?)
            && forall w :: w in r.0 ==>
                 (w.mappings != [] &&
                  exists i :: 0 <= i < |mods| && w.stem == mods[i].stem &&
                    CreateFileSpec(mods[i].identifiers, origs[i].identifiers, MapsFor(store, mods[i].stem)) == Ok(w.mappings))
    ensures var r := CreateRunSpec(outputExists, mods, origs, store);
            r.1.None? ==>
              && r.0 == Writes(Outcomes(mods, origs, store))
              && forall i :: 0 <= i < |mods| && CreateOne(mods[i], origs[i], store).Ok? &&
                             CreateOne(mods[i], origs[i], store).value != [] ==>
                   MapWrite(mods[i].stem, CreateOne(mods[i], origs[i], store).value) in r.0
    ensures var r := CreateRunSpec(outputExists, mods, origs, store);
            !outputExists && |mods| == |origs| && r.1.Some? ==>
              exists k :: 0 <= k < |mods| && CreateOne(mods[k], origs[k], store).Err? &&
                (forall j :: 0 <= j < k ==> CreateOne(mods[j], origs[j], store).Ok?) &&
                r == (Writes(Outcomes(mods, origs, store)[..k]), Some(CreateOne(mods[k], origs[k], store).error))
  {
    if !outputExists && |mods| == |origs| {
      assert CreateRunSpec(outputExists, mods, origs, store) == Fold(Outcomes(mods, origs, store));
      FoldFinishes(mods, origs, store);
      FoldWrites(mods, origs, store);
      FoldComplete(mods, origs, store);
      FoldStopsAtFile(mods, origs, store);
    }
  }

  /** When Create finishes, it has written a map file for every file whose
      new mappings are not empty. */
  lemma FoldComplete(mods: seq<JsFile>, origs: seq<JsFile>, store: seq<MapFile>)
    requires |mods| == |origs|
    ensures var r := Fold(Outcomes(mods, origs, store));
            r.1.None? ==>
              forall i :: 0 <= i < |mods| && CreateOne(mods[i], origs[i], store).Ok? &&
                          CreateOne(mods[i], origs[i], store).value != [] ==>
                MapWrite(mods[i].stem, CreateOne(mods[i], origs[i], store).value) in r.0
  {
    var steps := Outcomes(mods, origs, store);
    FoldResult(steps);
    assert forall k :: 0 <= k < |steps| ==> steps[k] == (mods[k].stem, CreateOne(mods[k], origs[k], store));
  }

  /** When Create stops, it stops at the first file that fails, having
      written the map files of the files before it. */
  lemma FoldStopsAtFile(mods: seq<JsFile>, origs: seq<JsFile>, store: seq<MapFile>)
    requires |mods| == |origs|
    ensures var r := Fold(Outcomes(mods, origs, store));
            r.1.Some? ==>
              exists k :: 0 <= k < |mods| && CreateOne(mods[k], origs[k], store).Err? &&
                (forall j :: 0 <= j < k ==> CreateOne(mods[j], origs[j], store).Ok?) &&
                r == (Writes(Outcomes(mods, origs, store)[..k]), Some(CreateOne(mods[k], origs[k], store).error))
  {
    var steps := Outcomes(mods, origs, store);
    FoldStopsAtError(steps);
    if Fold(steps).1.Some? {
      var k :| 0 <= k < |steps| && steps[k].1.Err? &&
               (forall j :: 0 <= j < k ==> steps[j].1.Ok?) &&
               Fold(steps) == (Writes(steps[..k]), Some(steps[k].1.error));
      assert steps[k].1 == CreateOne(mods[k], origs[k], store);
      forall j | 0 <= j < k
        ensures CreateOne(mods[j], origs[j], store).Ok?
      {
        assert steps[j].1 == CreateOne(mods[j], origs[j], store);
      }
    }
  }

  /** Create finishes exactly when every pair of files yields mappings. */
  lemma FoldFinishes(mods: seq<JsFile>, origs: seq<JsFile>, store: seq<MapFile>)
    requires |mods| == |origs|
    ensures Fold(Outcomes(mods, origs, store)).1.None? <==>
              forall i :: 0 <= i < |mods| ==> CreateOne(mods[i], origs[i], store).Ok?
  {
    var steps := Outcomes(mods, origs, store);
    FoldResult(steps);
    assert forall k :: 0 <= k < |steps| ==> steps[k].1 == CreateOne(mods[k], origs[k], store);
  }

  /** Every map file Create writes holds one file's non-empty new mappings. */
  lemma FoldWrites(mods: seq<JsFile>, origs: seq<JsFile>, store: seq<MapFile>)
    requires |mods| == |origs|
    ensures forall w :: w in Fold(Outcomes(mods, origs, store)).0 ==>
              (w.mappings != [] &&
               exists i :: 0 <= i < |mods| && w.stem == mods[i].stem &&
                 CreateFileSpec(mods[i].identifiers, origs[i].identifiers, MapsFor(store, mods[i].stem)) == Ok(w.mappings))
  {
    var steps := Outcomes(mods, origs, store);
    FoldResult(steps);
    forall w | w in Fold(steps).0
      ensures exists i :: 0 <= i < |mods| && w.stem == mods[i].stem &&
                CreateFileSpec(mods[i].identifiers, origs[i].identifiers, MapsFor(store, mods[i].stem)) == Ok(w.mappings)
    {
      var k :| 0 <= k < |steps| && steps[k] == (w.stem, Ok(w.mappings));
      assert steps[k] == (mods[k].stem, CreateOne(mods[k], origs[k], store));
      assert CreateOne(mods[k], origs[k], store) == Ok(w.mappings);
    }
  }

  // ---------------------------------------------------------------------
  // Check

  /** `m` comes from another map file than `t` and maps the same original scope. */
  predicate Shares(m: Tagged, t: Tagged) {
    m.file != t.file && m.mapping.original.scopeId == t.mapping.original.scopeId
  }

  /** `m` shares `t`'s original scope from another file, under another name. */
  predicate Clashes(m: Tagged, t: Tagged) {
    Shares(m, t) && m.mapping.modified.name != t.mapping.modified.name
  }

  /** Index of the first mapping that clashes with `t` (or, when
      `clashOnly` is false, merely shares its scope), or |all|. */
  function FirstPartner(all: seq<Tagged>, t: Tagged, clashOnly: bool): (k: nat)
    ensures k <= |all|
    ensures forall j :: 0 <= j < k ==> !(if clashOnly then Clashes(all[j], t) else Shares(all[j], t))
    ensures k < |all| ==> if clashOnly then Clashes(all[k], t) else Shares(all[k], t)
    decreases |all|
  {
    if all == [] then 0
    else if (if clashOnly then Clashes(all[0], t) else Shares(all[0], t)) then 0
    else 1 + FirstPartner(all[1..], t, clashOnly)
  }

  lemma FirstPartnerUnique(all: seq<Tagged>, t: Tagged, clashOnly: bool, k: nat)
    requires k <= |all|
    requires forall j :: 0 <= j < k ==> !(if clashOnly then Clashes(all[j], t) else Shares(all[j], t))
    requires k < |all| ==> if clashOnly then Clashes(all[k], t) else Shares(all[k], t)
    ensures FirstPartner(all, t, clashOnly) == k
  {
  }

  /** The `filter(..).any(..)` searches of Check, keeping the mapping the
      search stopped at. */
  method FindPartner(all: seq<Tagged>, t: Tagged, clashOnly: bool) returns (k: nat)
    ensures k == FirstPartner(all, t, clashOnly)
  {
    k := 0;
    while k < |all| && !(if clashOnly then Clashes(all[k], t) else Shares(all[k], t))
      invariant k <= |all|
      invariant forall j :: 0 <= j < k ==> !(if clashOnly then Clashes(all[j], t) else Shares(all[j], t))
    {
      k := k + 1;
    }
    FirstPartnerUnique(all, t, clashOnly, k);
  }

  /** A warning that two map files map the same original scope: the other
      file, the file of the mapping warned about, and its modified identifier. */
  datatype Warning = Warning(otherFile: string, file: string, modified: Identifier)

  datatype CheckFailure =
    | NoSourceMaps(path: string)                                // no map file for this JavaScript file
    | MapsConflict(otherFile: string, file: string, mapping: Mapping)

  /** Some warning is about this modified scope. */
  predicate Warned(ws: seq<Warning>, scope: nat) {
    exists w :: w in ws && w.modified.scopeId == scope
  }

  lemma WarnedAppend(ws: seq<Warning>, w: Warning)
    ensures forall x :: Warned(ws + [w], x) <==> Warned(ws, x) || x == w.modified.scopeId
  {
    assert w in ws + [w];
    assert forall v :: v in ws + [w] <==> v in ws || v == w;
  }

  /** Recording a warning's scope keeps the list of compared scopes in
      step with the warnings. */
  lemma ComparedAppend(compared: seq<nat>, ws: seq<Warning>, w: Warning)
    requires forall s :: s in compared <==> Warned(ws, s)
    ensures forall s :: s in compared + [w.modified.scopeId] <==> Warned(ws + [w], s)
  {
    WarnedAppend(ws, w);
    assert forall v :: v in compared + [w.modified.scopeId] <==> v in compared || v == w.modified.scopeId;
  }

  /** The Check loop from mapping `i` on, with the warnings so far. */
  function CheckFrom(all: seq<Tagged>, i: nat, ws: seq<Warning>): (r: Result<seq<Warning>, CheckFailure>)
    requires i <= |all|
    ensures r.Ok? ==> ws <= r.value
    ensures r.Err? ==> r.error.MapsConflict? && Tagged(r.error.file, r.error.mapping) in all[i..]
    decreases |all| - i
  {
    if i == |all| then Ok(ws)
    else
      var t := all[i];
      var c := FirstPartner(all, t, true);
      if c < |all| then Err(MapsConflict(all[c].file, t.file, t.mapping))
      else
        var s := FirstPartner(all, t, false);
        if s < |all| && !Warned(ws, t.mapping.modified.scopeId) then
          CheckFrom(all, i + 1, ws + [Warning(all[s].file, t.file, t.mapping.modified)])
        else CheckFrom(all, i + 1, ws)
  }

  /** One step of the Check loop past a mapping without a clash. */
  lemma CheckFromNext(all: seq<Tagged>, i: nat, ws: seq<Warning>, s: nat)
    requires i < |all| && FirstPartner(all, all[i], true) == |all|
    requires s == FirstPartner(all, all[i], false)
    ensures s < |all| && !Warned(ws, all[i].mapping.modified.scopeId) ==>
              CheckFrom(all, i, ws) ==
              CheckFrom(all, i + 1, ws + [Warning(all[s].file, all[i].file, all[i].mapping.modified)])
    ensures !(s < |all| && !Warned(ws, all[i].mapping.modified.scopeId)) ==>
              CheckFrom(all, i, ws) == CheckFrom(all, i + 1, ws)
  {
  }

  /** What Check computes for the mappings of one JavaScript file. */
  function CheckSpec(all: seq<Tagged>): (r: Result<seq<Warning>, CheckFailure>)
    ensures all == [] ==> r == Ok([])
    ensures r.Err? ==> r.error.MapsConflict? && Tagged(r.error.file, r.error.mapping) in all
  {
    CheckFrom(all, 0, [])
  }

  /** Check's loop over the mappings of one file. */
  method CheckMappings(all: seq<Tagged>) returns (r: Result<seq<Warning>, CheckFailure>)
    ensures r == CheckSpec(all)
  {
    var compared: seq<nat> := [];
    var warnings: seq<Warning> := [];
    for i := 0 to |all|
      invariant CheckFrom(all, i, warnings) == CheckSpec(all)
      invariant forall s :: s in compared <==> Warned(warnings, s)
    {
      var t := all[i];
      var c := FindPartner(all, t, true);
      if c < |all| {
        assert CheckFrom(all, i, warnings) == Err(MapsConflict(all[c].file, t.file, t.mapping));
        return Err(MapsConflict(all[c].file, t.file, t.mapping));
      }
      var s := FindPartner(all, t, false);
      CheckFromNext(all, i, warnings, s);
      if s < |all| {
        if t.mapping.modified.scopeId in compared {
          continue;
        }
        var w := Warning(all[s].file, t.file, t.mapping.modified);
        ComparedAppend(compared, warnings, w);
        compared := compared + [t.mapping.modified.scopeId];
        warnings := warnings + [w];
      }
    }
    r := Ok(warnings);
  }

  /** Check on one JavaScript file: no map file is an error, otherwise the
      tagged mappings of its map files are checked. */
  method CheckFile(path: string, maps: seq<MapFile>) returns (r: Result<seq<Warning>, CheckFailure>)
    ensures maps == [] ==> r == Err(NoSourceMaps(path))
    ensures maps != [] ==> r == CheckSpec(TagAll(maps))
  {
    if |maps| == 0 {
      return Err(NoSourceMaps(path));
    }
    var tagged := GatherTagged(maps);
    r := CheckMappings(tagged);
  }

  /** The loop fails from `i` on exactly when a mapping at or after `i`
      clashes with one from another file, and reports such a pair. */
  lemma {:induction false} CheckFromFails(all: seq<Tagged>, i: nat, ws: seq<Warning>)
    requires i <= |all|
    ensures CheckFrom(all, i, ws).Err? <==>
              exists a, b :: i <= a < |all| && 0 <= b < |all| && Clashes(all[b], all[a])
    ensures CheckFrom(all, i, ws).Err? ==>
              exists a, b :: i <= a < |all| && 0 <= b < |all| && Clashes(all[b], all[a]) &&
                CheckFrom(all, i, ws).error == MapsConflict(all[b].file, all[a].file, all[a].mapping)
    decreases |all| - i
  {
    if i < |all| {
      var t := all[i];
      var c := FirstPartner(all, t, true);
      if c == |all| {
        var s := FirstPartner(all, t, false);
        var ws' := if s < |all| && !Warned(ws, t.mapping.modified.scopeId)
                   then ws + [Warning(all[s].file, t.file, t.mapping.modified)] else ws;
        assert CheckFrom(all, i, ws) == CheckFrom(all, i + 1, ws');
        CheckFromFails(all, i + 1, ws');
        if exists a, b :: i <= a < |all| && 0 <= b < |all| && Clashes(all[b], all[a]) {
          var a, b :| i <= a < |all| && 0 <= b < |all| && Clashes(all[b], all[a]);
          assert !Clashes(all[b], t);
          assert i + 1 <= a;
        }
      }
    }
  }

  /** Check fails on a file exactly when two of its mappings, from
      different map files, give the same original scope different names,
      and it reports such a pair. */
  lemma CheckFailsIffClash(all: seq<Tagged>)
    ensures CheckSpec(all).Err? <==> exists a, b :: 0 <= a < |all| && 0 <= b < |all| && Clashes(all[b], all[a])
    ensures CheckSpec(all).Err? ==>
              exists a, b :: 0 <= a < |all| && 0 <= b < |all| && Clashes(all[b], all[a]) &&
                CheckSpec(all).error == MapsConflict(all[b].file, all[a].file, all[a].mapping)
  {
    CheckFromFails(all, 0, []);
  }

  /** Some mapping from another file shares `t`'s original scope. */
  predicate HasSharer(all: seq<Tagged>, t: Tagged) {
    exists b :: 0 <= b < |all| && Shares(all[b], t)
  }

  /** No two warnings are about the same modified scope. */
  predicate OnePerScope(ws: seq<Warning>) {
    forall p, q :: 0 <= p < q < |ws| ==> ws[p].modified.scopeId != ws[q].modified.scopeId
  }

  /** The warned modified scopes are exactly those of the first `k`
      mappings that have a sharer. */
  ghost predicate WarnedExactly(all: seq<Tagged>, k: nat, ws: seq<Warning>)
    requires k <= |all|
  {
    forall s :: Warned(ws, s) <==>
      exists a :: 0 <= a < k && HasSharer(all, all[a]) && all[a].mapping.modified.scopeId == s
  }

  /** Every warning is about a real pair of mappings sharing a scope. */
  ghost predicate AllReal(all: seq<Tagged>, ws: seq<Warning>) {
    forall w :: w in ws ==>
      exists a, b :: 0 <= a < |all| && 0 <= b < |all| && Shares(all[b], all[a]) &&
        w == Warning(all[b].file, all[a].file, all[a].mapping.modified)
  }

  /** What the warnings after the first `k` mappings satisfy: one per
      modified scope, one for every modified scope among those mappings
      that has a sharer, and each about a real sharing pair. */
  ghost predicate WarningsSoFar(all: seq<Tagged>, k: nat, ws: seq<Warning>)
    requires k <= |all|
  {
    OnePerScope(ws) && WarnedExactly(all, k, ws) && AllReal(all, ws)
  }

  lemma {:induction false} CheckFromWarnings(all: seq<Tagged>, i: nat, ws: seq<Warning>)
    requires i <= |all| && WarningsSoFar(all, i, ws)
    ensures CheckFrom(all, i, ws).Ok? ==> WarningsSoFar(all, |all|, CheckFrom(all, i, ws).value)
    decreases |all| - i
  {
    if i < |all| {
      var t := all[i];
      var c := FirstPartner(all, t, true);
      if c == |all| {
        var s := FirstPartner(all, t, false);
        if s < |all| && !Warned(ws, t.mapping.modified.scopeId) {
          var ws' := ws + [Warning(all[s].file, t.file, t.mapping.modified)];
          WarningAdded(all, i, ws, s);
          assert CheckFrom(all, i, ws) == CheckFrom(all, i + 1, ws');
          CheckFromWarnings(all, i + 1, ws');
        } else {
          WarningSkipped(all, i, ws);
          assert CheckFrom(all, i, ws) == CheckFrom(all, i + 1, ws);
          CheckFromWarnings(all, i + 1, ws);
        }
      }
    }
  }

  /** Mapping `i` has a sharer and its modified scope has no warning yet:
      warning about it keeps the invariant one mapping further on. */
  lemma WarningAdded(all: seq<Tagged>, i: nat, ws: seq<Warning>, s: nat)
    requires i < |all| && WarningsSoFar(all, i, ws)
    requires s == FirstPartner(all, all[i], false) && s < |all|
    requires !Warned(ws, all[i].mapping.modified.scopeId)
    ensures WarningsSoFar(all, i + 1, ws + [Warning(all[s].file, all[i].file, all[i].mapping.modified)])
  {
    var w := Warning(all[s].file, all[i].file, all[i].mapping.modified);
    AddedOnePerScope(ws, w);
    AddedWarnedExactly(all, i, ws, w);
    AddedReal(all, ws, w, i, s);
  }

  lemma AddedOnePerScope(ws: seq<Warning>, w: Warning)
    requires OnePerScope(ws) && !Warned(ws, w.modified.scopeId)
    ensures OnePerScope(ws + [w])
  {
    var ws' := ws + [w];
    forall p, q | 0 <= p < q < |ws'|
      ensures ws'[p].modified.scopeId != ws'[q].modified.scopeId
    {
      if q == |ws| {
        assert ws'[p] in ws;
      }
    }
  }

  lemma AddedWarnedExactly(all: seq<Tagged>, i: nat, ws: seq<Warning>, w: Warning)
    requires i < |all| && WarnedExactly(all, i, ws)
    requires HasSharer(all, all[i]) && w.modified == all[i].mapping.modified
    ensures WarnedExactly(all, i + 1, ws + [w])
  {
    WarnedAppend(ws, w);
    forall x
      ensures Warned(ws + [w], x) <==>
                exists a :: 0 <= a < i + 1 && HasSharer(all, all[a]) && all[a].mapping.modified.scopeId == x
    {
      if x == w.modified.scopeId {
        assert 0 <= i < i + 1 && HasSharer(all, all[i]);
      }
    }
  }

  lemma AddedReal(all: seq<Tagged>, ws: seq<Warning>, w: Warning, i: nat, s: nat)
    requires AllReal(all, ws) && i < |all| && s < |all| && Shares(all[s], all[i])
    requires w == Warning(all[s].file, all[i].file, all[i].mapping.modified)
    ensures AllReal(all, ws + [w])
  {
    assert forall v :: v in ws + [w] ==> v in ws || v == w;
  }

  /** Mapping `i` has no sharer, or its modified scope already has a
      warning: the warnings keep the invariant one mapping further on. */
  lemma WarningSkipped(all: seq<Tagged>, i: nat, ws: seq<Warning>)
    requires i < |all| && WarningsSoFar(all, i, ws)
    requires var s := FirstPartner(all, all[i], false);
             !(s < |all| && !Warned(ws, all[i].mapping.modified.scopeId))
    ensures WarningsSoFar(all, i + 1, ws)
  {
    var t := all[i];
    forall x
      ensures Warned(ws, x) <==>
                exists a :: 0 <= a < i + 1 && HasSharer(all, all[a]) && all[a].mapping.modified.scopeId == x
    {
      if x == t.mapping.modified.scopeId && HasSharer(all, t) {
        var b :| 0 <= b < |all| && Shares(all[b], t);
        assert FirstPartner(all, t, false) < |all|;
      }
    }
  }

  /** When Check passes a file, it has warned once per modified scope, for
      exactly the modified scopes of mappings whose original scope another
      map file also maps, and each warning names such a pair of files. */
  lemma CheckWarnings(all: seq<Tagged>)
    ensures var r := CheckSpec(all);
            r.Ok? ==>
              && (forall p, q :: 0 <= p < q < |r.value| ==> r.value[p].modified.scopeId != r.value[q].modified.scopeId)
              && (forall s :: Warned(r.value, s) <==>
                    exists a :: 0 <= a < |all| && HasSharer(all, all[a]) && all[a].mapping.modified.scopeId == s)
              && (forall w :: w in r.value ==>
                    exists a, b :: 0 <= a < |all| && 0 <= b < |all| && Shares(all[b], all[a]) &&
                      w == Warning(all[b].file, all[a].file, all[a].mapping.modified))
  {
    CheckFromWarnings(all, 0, []);
  }

  // ---------------------------------------------------------------------
  // Generate

  datatype GenerateError =
    | NoMapFiles(path: string)   // no map file for this JavaScript file
    | SliceOutOfBounds           // the recorded edits are out of order or out of the text

  /** What Generate produces for one original file: the renamer's edits
      under all mappings of its map files, applied to the text. */
  function GenerateSpec(path: string, text: string, events: seq<Event>, maps: seq<MapFile>)
    : (r: Result<string, GenerateError>)
    ensures r == Err(NoMapFiles(path)) <==> maps == []
    ensures r.Ok? ==> |r.value| == |text| + Delta(RenameRun(Start, Flatten(maps), events).changes)
  {
    if maps == [] then Err(NoMapFiles(path))
    else
      var changes := RenameRun(Start, Flatten(maps), events).changes;
      if Applicable(text, changes, 0) then
        StitchLength(text, changes, 0);
        Ok(Stitch(text, changes, 0))
      else Err(SliceOutOfBounds)
  }

  /** Generate on one original file, given its text and the traversal of
      its parse. */
  method GenerateFile(path: string, text: string, events: seq<Event>, maps: seq<MapFile>)
    returns (r: Result<string, GenerateError>)
    ensures r == GenerateSpec(path, text, events, maps)
  {
    if |maps| == 0 {
      return Err(NoMapFiles(path));
    }
    var mappings := GatherMappings(maps);
    var renamer := new Renamer(mappings);
    renamer.Walk(events);
    var changes := renamer.changes;
    if !Applicable(text, changes, 0) {
      return Err(SliceOutOfBounds);
    }
    var output := ApplyChanges(text, changes);
    r := Ok(output);
  }

  /** Generate needs a map file; with map files that hold no mapping it
      reproduces the text, and otherwise every replacement it writes is the
      modified name of a loaded mapping (with `#` for private names), the
      text between replacements is kept, and the length changes by the
      edits' net growth. */
  lemma GenerateResult(path: string, text: string, events: seq<Event>, maps: seq<MapFile>)
    ensures maps == [] ==> GenerateSpec(path, text, events, maps) == Err(NoMapFiles(path))
    ensures maps != [] && Flatten(maps) == [] ==> GenerateSpec(path, text, events, maps) == Ok(text)
    ensures var changes := RenameRun(Start, Flatten(maps), events).changes;
            GenerateSpec(path, text, events, maps).Ok? ==>
              && Applicable(text, changes, 0)
              && |GenerateSpec(path, text, events, maps).value| == |text| + Delta(changes)
              && (forall c :: c in changes ==> FromMappings(Flatten(maps), c.text))
              && (forall i :: 0 <= i <= |changes| ==>
                    PlacedAt(GenerateSpec(path, text, events, maps).value, Shift(changes, 0, i), Gap(text, changes, 0, i)))
  {
    var changes := RenameRun(Start, Flatten(maps), events).changes;
    RenamedFileEdits(Flatten(maps), events);
    if maps != [] && Applicable(text, changes, 0) {
      StitchLength(text, changes, 0);
      forall i | 0 <= i <= |changes|
        ensures PlacedAt(Stitch(text, changes, 0), Shift(changes, 0, i), Gap(text, changes, 0, i))
      {
        StitchPlacement(text, changes, 0, i);
      }
      if Flatten(maps) == [] {
        assert changes == [];
        assert text[0..] == text;
      }
    }
  }
}
