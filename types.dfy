/** The records the rename tool passes around: scoped identifiers, the
    mappings persisted in source map files, byte spans and text edits,
    and the Option/Result wrappers used for lookups and failures. */
module Types {

  datatype Option<+T> = None | Some(value: T)

  datatype Result<+T, +E> = Ok(value: T) | Err(error: E)

  datatype Outcome<+E> = Pass | Fail(error: E)

  /** A declaration or reference seen by a visitor: its name, the flat
      label of the scope it was attributed to, and its position in the
      emission order (`id`). Equality is over all three fields. */
  datatype Identifier = Identifier(name: string, scopeId: nat, id: nat)

  /** One persisted rename: the identifier in the obfuscated file and the
      identifier it corresponds to in the deobfuscated file. */
  datatype Mapping = Mapping(original: Identifier, modified: Identifier)

  /** A byte range of the original text, as the parser reports it. */
  datatype Span = Span(start: nat, end: nat)

  /** An edit recorded by the renamer: replace `span` by `text`. */
  datatype Change = Change(span: Span, text: string)

  /** No element occurs twice. */
  predicate Distinct<T(==)>(s: seq<T>) {
    forall i, j :: 0 <= i < j < |s| ==> s[i] != s[j]
  }

  /** Every identifier's `id` is its own index in the list. */
  predicate IdsAreIndices(ids: seq<Identifier>) {
    forall i :: 0 <= i < |ids| ==> ids[i].id == i
  }

  /** Some identifier of `ids` has this name and this scope. */
  predicate HasKey(ids: seq<Identifier>, name: string, scope: nat) {
    exists i :: 0 <= i < |ids| && ids[i].name == name && ids[i].scopeId == scope
  }

  /** No two identifiers share a `(name, scopeId)` pair. */
  predicate UniqueKeys(ids: seq<Identifier>) {
    forall i, j :: 0 <= i < j < |ids| ==>
      ids[i].name != ids[j].name || ids[i].scopeId != ids[j].scopeId
  }
}
