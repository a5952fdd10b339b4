/** The list logic of `utils.rs`: the two-way difference of identifier
    lists, the check that a difference can be paired, and the rewrite of a
    text from edits given by byte spans of the original. */
module Utils {
  import opened Types

  // ---------------------------------------------------------------------
  // compare_identifiers

  predicate SortedById(s: seq<Identifier>) {
    forall i, j :: 0 <= i < j < |s| ==> s[i].id <= s[j].id
  }

  predicate StrictlySortedById(s: seq<Identifier>) {
    forall i, j :: 0 <= i < j < |s| ==> s[i].id < s[j].id
  }

  /** The elements of `a` that are not elements of `b`, each once, in the
      order of their first occurrence in `a`: the difference of the two
      hash sets built from the lists. */
  function Difference(a: seq<Identifier>, b: seq<Identifier>): (r: seq<Identifier>)
    ensures forall x :: x in r <==> x in a && x !in b
    ensures Distinct(r)
    decreases |a|
  {
    if a == [] then []
    else if a[0] in b then
      assert forall x :: x in a <==> x == a[0] || x in a[1..];
      Difference(a[1..], b)
    else
      var rest := Difference(a[1..], b + [a[0]]);
      assert forall x :: x in a <==> x == a[0] || x in a[1..];
      assert a[0] !in rest;
      [a[0]] + rest
  }

  /** Insert `x` into a list sorted by id, after every element whose id is
      smaller. */
  function Insert(x: Identifier, s: seq<Identifier>): (r: seq<Identifier>)
    requires SortedById(s)
    ensures SortedById(r)
    ensures multiset(r) == multiset(s) + multiset{x}
    ensures |r| == |s| + 1 && (r[0] == x || (s != [] && r[0] == s[0]))
    decreases |s|
  {
    if s == [] || x.id <= s[0].id then
      SortedCons(x, s);
      [x] + s
    else
      var rest := Insert(x, s[1..]);
      assert s == [s[0]] + s[1..];
      SortedCons(s[0], rest);
      [s[0]] + rest
  }

  /** A list sorted by id stays sorted under a head no larger than its own. */
  lemma SortedCons(y: Identifier, t: seq<Identifier>)
    requires SortedById(t) && (t == [] || y.id <= t[0].id)
    ensures SortedById([y] + t)
  {
    assert forall j :: 0 <= j < |t| ==> t[0].id <= t[j].id;
  }

  /** sort_by_key on `id`. */
  function SortById(s: seq<Identifier>): (r: seq<Identifier>)
    ensures SortedById(r)
    ensures multiset(r) == multiset(s)
    decreases |s|
  {
    if s == [] then []
    else
      assert s == [s[0]] + s[1..];
      Insert(s[0], SortById(s[1..]))
  }

  lemma {:induction false} DistinctByMultiset(s: seq<Identifier>, t: seq<Identifier>)
    requires multiset(s) == multiset(t) && Distinct(s)
    ensures Distinct(t)
  {
    forall i, j | 0 <= i < j < |t|
      ensures t[i] != t[j]
    {
      if t[i] == t[j] {
        assert t == t[..j] + t[j..];
        assert t[i] in t[..j] && t[j] in t[j..];
        assert multiset(t)[t[i]] == multiset(t[..j])[t[i]] + multiset(t[j..])[t[i]];
        MultiplicityAtMostOne(s, t[i]);
      }
    }
  }

  lemma {:induction false} MultiplicityAtMostOne(s: seq<Identifier>, x: Identifier)
    requires Distinct(s)
    ensures multiset(s)[x] <= 1
    decreases |s|
  {
    if s != [] {
      assert s == [s[0]] + s[1..];
      assert Distinct(s[1..]);
      MultiplicityAtMostOne(s[1..], x);
      if x == s[0] {
        assert x !in s[1..];
      }
    }
  }

  /** compare_identifiers: the identifiers only in the first list and those
      only in the second, compared on all three fields, each once and
      sorted by id. */
  function CompareIdentifiers(ids1: seq<Identifier>, ids2: seq<Identifier>)
    : (r: (seq<Identifier>, seq<Identifier>))
    ensures forall x :: x in r.0 <==> x in ids1 && x !in ids2
    ensures forall x :: x in r.1 <==> x in ids2 && x !in ids1
    ensures Distinct(r.0) && Distinct(r.1)
    ensures SortedById(r.0) && SortedById(r.1)
  {
    var d1, d2 := Difference(ids1, ids2), Difference(ids2, ids1);
    var s1, s2 := SortById(d1), SortById(d2);
    DistinctByMultiset(d1, s1);
    DistinctByMultiset(d2, s2);
    assert forall x :: x in s1 <==> x in multiset(d1);
    assert forall x :: x in s2 <==> x in multiset(d2);
    (s1, s2)
  }

  /** A distinct list sorted by id, drawn from a list whose ids are its
      indices, is strictly sorted by id. */
  lemma SortedSubsetStrict(r: seq<Identifier>, ids: seq<Identifier>)
    requires IdsAreIndices(ids) && SortedById(r) && Distinct(r)
    requires forall x :: x in r ==> x in ids
    ensures StrictlySortedById(r)
  {
    forall i, j | 0 <= i < j < |r|
      ensures r[i].id < r[j].id
    {
      assert r[i] in ids && r[j] in ids;
      var p :| 0 <= p < |ids| && ids[p] == r[i];
      var q :| 0 <= q < |ids| && ids[q] == r[j];
    }
  }

  lemma NonEmptyHasHead(s: seq<Identifier>)
    ensures s != [] ==> s[0] in s
  {
  }

  /** Two lists strictly sorted by id with the same elements are equal. */
  lemma {:induction false} StrictlySortedUnique(r1: seq<Identifier>, r2: seq<Identifier>)
    requires StrictlySortedById(r1) && StrictlySortedById(r2)
    requires forall x :: x in r1 <==> x in r2
    ensures r1 == r2
    decreases |r1|
  {
    if r1 == [] {
      NonEmptyHasHead(r2);
    } else {
      SameHead(r1, r2);
      SameTail(r1, r2);
      StrictlySortedUnique(r1[1..], r2[1..]);
      assert r1 == [r1[0]] + r1[1..];
      assert r2 == [r2[0]] + r2[1..];
    }
  }

  /** Strictly sorted lists with the same elements start alike. */
  lemma SameHead(r1: seq<Identifier>, r2: seq<Identifier>)
    requires StrictlySortedById(r1) && StrictlySortedById(r2)
    requires forall x :: x in r1 <==> x in r2
    requires r1 != []
    ensures r2 != [] && r1[0] == r2[0]
  {
    assert r1[0] in r2;
    assert r2[0] in r1;
    var k :| 0 <= k < |r1| && r1[k] == r2[0];
    var m :| 0 <= m < |r2| && r2[m] == r1[0];
    assert r1[0].id <= r1[k].id;
    assert r2[0].id <= r2[m].id;
  }

  /** Past a common head, strictly sorted lists with the same elements
      still have the same elements. */
  lemma SameTail(r1: seq<Identifier>, r2: seq<Identifier>)
    requires StrictlySortedById(r1) && StrictlySortedById(r2)
    requires forall x :: x in r1 <==> x in r2
    requires r1 != [] && r2 != [] && r1[0] == r2[0]
    ensures forall x :: x in r1[1..] <==> x in r2[1..]
  {
    forall x
      ensures x in r1[1..] <==> x in r2[1..]
    {
      if x in r1[1..] {
        var a :| 1 <= a < |r1| && r1[a] == x;
        assert x in r2;
        assert x != r2[0];
      }
      if x in r2[1..] {
        var b :| 1 <= b < |r2| && r2[b] == x;
        assert x in r1;
        assert x != r1[0];
      }
    }
  }

  /** The order in which the source's hash sets yield their elements is not
      observable: for lists whose ids are their indices, as the collector
      produces them, any sorted, duplicate-free list of the identifiers only
      in the first list is the one this model computes. */
  lemma HashOrderUnobservable(ids1: seq<Identifier>, ids2: seq<Identifier>, other: seq<Identifier>)
    requires IdsAreIndices(ids1)
    requires SortedById(other) && Distinct(other)
    requires forall x :: x in other <==> x in ids1 && x !in ids2
    ensures other == CompareIdentifiers(ids1, ids2).0
  {
    var r := CompareIdentifiers(ids1, ids2).0;
    SortedSubsetStrict(r, ids1);
    SortedSubsetStrict(other, ids1);
    StrictlySortedUnique(other, r);
  }

  // ---------------------------------------------------------------------
  // check_identifiers

  datatype CheckError =
    | CountMismatch(count1: nat, count2: nat)   // the lists differ in length
    | ScopeNotFound(identifier: Identifier)     // an identifier whose scope the second list lacks

  /** Some identifier of `ids` is attributed to `scope`. */
  predicate HasScope(ids: seq<Identifier>, scope: nat) {
    exists j :: 0 <= j < |ids| && ids[j].scopeId == scope
  }

  /** Index of the first identifier of `ids1` whose scope no identifier of
      `ids2` has, or |ids1|. */
  function FirstMissingScope(ids1: seq<Identifier>, ids2: seq<Identifier>): (k: nat)
    ensures k <= |ids1|
    ensures forall i :: 0 <= i < k ==> HasScope(ids2, ids1[i].scopeId)
    ensures k < |ids1| ==> !HasScope(ids2, ids1[k].scopeId)
    decreases |ids1|
  {
    if ids1 == [] then 0
    else if !HasScope(ids2, ids1[0].scopeId) then 0
    else 1 + FirstMissingScope(ids1[1..], ids2)
  }

  /** check_identifiers: the lists must have the same length, and every
      scope of the first must occur somewhere in the second. */
  function CheckIdentifiers(ids1: seq<Identifier>, ids2: seq<Identifier>): (r: Outcome<CheckError>)
    ensures r.Pass? <==>
              |ids1| == |ids2| && forall i :: 0 <= i < |ids1| ==> HasScope(ids2, ids1[i].scopeId)
    ensures r == Fail(CountMismatch(|ids1|, |ids2|)) <==> |ids1| != |ids2|
    ensures r.Fail? && r.error.ScopeNotFound? ==>
              exists i :: 0 <= i < |ids1| && r.error.identifier == ids1[i] &&
                !HasScope(ids2, ids1[i].scopeId) &&
                forall i' :: 0 <= i' < i ==> HasScope(ids2, ids1[i'].scopeId)
    ensures |ids1| == |ids2| && r.Fail? ==> r == Fail(ScopeNotFound(ids1[FirstMissingScope(ids1, ids2)]))
  {
    if |ids1| != |ids2| then Fail(CountMismatch(|ids1|, |ids2|))
    else
      var k := FirstMissingScope(ids1, ids2);
      if k < |ids1| then Fail(ScopeNotFound(ids1[k])) else Pass
  }

  /** The check tests membership, not position: reordering the second list
      never changes its verdict. */
  lemma CheckIgnoresOrder(ids1: seq<Identifier>, ids2: seq<Identifier>, shuffled: seq<Identifier>)
    requires multiset(ids2) == multiset(shuffled)
    ensures CheckIdentifiers(ids1, ids2) == CheckIdentifiers(ids1, shuffled)
  {
    assert |ids2| == |multiset(ids2)| == |shuffled|;
    forall scope
      ensures HasScope(ids2, scope) <==> HasScope(shuffled, scope)
    {
      if HasScope(ids2, scope) {
        var j :| 0 <= j < |ids2| && ids2[j].scopeId == scope;
        assert ids2[j] in multiset(shuffled);
        var j' :| 0 <= j' < |shuffled| && shuffled[j'] == ids2[j];
      }
      if HasScope(shuffled, scope) {
        var j :| 0 <= j < |shuffled| && shuffled[j].scopeId == scope;
        assert shuffled[j] in multiset(ids2);
        var j' :| 0 <= j' < |ids2| && ids2[j'] == shuffled[j];
      }
    }
    FirstMissingSameScopes(ids1, ids2, shuffled);
  }

  lemma {:induction false} FirstMissingSameScopes(ids1: seq<Identifier>, a: seq<Identifier>, b: seq<Identifier>)
    requires forall scope :: HasScope(a, scope) <==> HasScope(b, scope)
    ensures FirstMissingScope(ids1, a) == FirstMissingScope(ids1, b)
    decreases |ids1|
  {
    if ids1 != [] {
      FirstMissingSameScopes(ids1[1..], a, b);
    }
  }

  // ---------------------------------------------------------------------
  // apply_changes

  /** The slicing of apply_changes stays in bounds: each edit starts at or
      after the end of the previous one (the first at or after `from`) and
      within the text, and the last one ends within the text. */
  predicate Applicable(text: string, changes: seq<Change>, from: nat)
    decreases |changes|
  {
    if changes == [] then from <= |text|
    else from <= changes[0].span.start <= |text| && Applicable(text, changes[1..], changes[0].span.end)
  }

  /** The text from `from` on with the edits applied: the original text up
      to each edit, the edit's replacement, and the rest after the last. */
  function Stitch(text: string, changes: seq<Change>, from: nat): (r: string)
    requires Applicable(text, changes, from)
    decreases |changes|
  {
    if changes == [] then text[from..]
    else
      var c := changes[0];
      text[from..c.span.start] + c.text + Stitch(text, changes[1..], c.span.end)
  }

  /** How much longer the edits make the text. */
  function Delta(changes: seq<Change>): int
    decreases |changes|
  {
    if changes == [] then 0
    else |changes[0].text| - (changes[0].span.end - changes[0].span.start) + Delta(changes[1..])
  }

  /** The rewritten text is as long as the original plus, for every edit,
      the replacement's length minus the length of the span it replaces. */
  lemma {:induction false} StitchLength(text: string, changes: seq<Change>, from: nat)
    requires Applicable(text, changes, from)
    ensures |Stitch(text, changes, from)| == |text| - from + Delta(changes)
    decreases |changes|
  {
    if changes != [] {
      StitchLength(text, changes[1..], changes[0].span.end);
    }
  }

  /** Where gap `i` of the original text begins: at `from` for the first,
      otherwise at the end of edit i-1. */
  function GapStart(changes: seq<Change>, from: nat, i: nat): nat
    requires i <= |changes|
  {
    if i == 0 then from else changes[i - 1].span.end
  }

  /** Where gap `i` ends: at the start of edit i, or at the end of the text. */
  function GapEnd(text: string, changes: seq<Change>, i: nat): nat
    requires i <= |changes|
  {
    if i == |changes| then |text| else changes[i].span.start
  }

  lemma {:induction false} ApplicableGap(text: string, changes: seq<Change>, from: nat, i: nat)
    requires Applicable(text, changes, from) && i <= |changes|
    ensures GapStart(changes, from, i) <= GapEnd(text, changes, i) <= |text|
    decreases |changes|
  {
    if i > 0 {
      ApplicableGap(text, changes[1..], changes[0].span.end, i - 1);
    }
  }

  /** Gap `i` of the original text: the text that apply_changes copies
      before edit `i` (after the last edit when `i` is the edit count). */
  function Gap(text: string, changes: seq<Change>, from: nat, i: nat): string
    requires Applicable(text, changes, from) && i <= |changes|
  {
    ApplicableGap(text, changes, from, i);
    text[GapStart(changes, from, i)..GapEnd(text, changes, i)]
  }

  /** `piece` occurs in `out` starting at offset `at`. */
  predicate PlacedAt(out: string, at: int, piece: string) {
    0 <= at && at + |piece| <= |out| && out[at..at + |piece|] == piece
  }

  lemma PlacedAfter(a: string, b: string, at: int, piece: string, out: string, at': int)
    requires PlacedAt(b, at, piece)
    requires out == a + b && at' == |a| + at
    ensures PlacedAt(out, at', piece)
  {
    assert (a + b)[|a| + at..|a| + at + |piece|] == b[at..at + |piece|];
  }

  /** How much longer the first `i` edits make the text. */
  function DeltaBefore(changes: seq<Change>, i: nat): int
    requires i <= |changes|
    decreases i
  {
    if i == 0 then 0
    else |changes[0].text| - (changes[0].span.end - changes[0].span.start) + DeltaBefore(changes[1..], i - 1)
  }

  /** Where gap `i` of the original lands in the rewritten text. */
  function Shift(changes: seq<Change>, from: nat, i: nat): int
    requires i <= |changes|
  {
    GapStart(changes, from, i) - from + DeltaBefore(changes, i)
  }

  /** Byte-exact preservation: the original text between two edits (or
      before the first, or after the last) reappears unchanged in the
      result, shifted by how much longer the earlier edits made the text,
      and each replacement follows the gap before it. */
  lemma {:induction false} StitchPlacement(text: string, changes: seq<Change>, from: nat, i: nat)
    requires Applicable(text, changes, from) && i <= |changes|
    ensures GapStart(changes, from, i) <= GapEnd(text, changes, i) <= |text|
    ensures PlacedAt(Stitch(text, changes, from), Shift(changes, from, i), Gap(text, changes, from, i))
    ensures i < |changes| ==>
              PlacedAt(Stitch(text, changes, from),
                       Shift(changes, from, i) + |Gap(text, changes, from, i)|,
                       changes[i].text)
    decreases |changes|
  {
    ApplicableGap(text, changes, from, i);
    if changes != [] {
      if i == 0 {
        StitchFirstGap(text, changes, from);
      } else {
        var c := changes[0];
        StitchPlacement(text, changes[1..], c.span.end, i - 1);
        StitchShift(text, changes, from, i);
      }
    }
  }

  lemma StitchFirstGap(text: string, changes: seq<Change>, from: nat)
    requires Applicable(text, changes, from) && changes != []
    ensures PlacedAt(Stitch(text, changes, from), 0, text[from..changes[0].span.start])
    ensures PlacedAt(Stitch(text, changes, from), changes[0].span.start - from, changes[0].text)
  {
    var c := changes[0];
    var gap := text[from..c.span.start];
    var out := Stitch(text, changes, from);
    var rest := Stitch(text, changes[1..], c.span.end);
    assert out == gap + c.text + rest;
    assert out[..|gap|] == gap;
    assert out[|gap|..|gap| + |c.text|] == c.text;
  }

  /** A placement in the text after the first edit moves right by the
      length of what precedes it. */
  lemma StitchShift(text: string, changes: seq<Change>, from: nat, i: nat)
    requires Applicable(text, changes, from) && 0 < i <= |changes|
    requires var rest := Stitch(text, changes[1..], changes[0].span.end);
             var sh := Shift(changes[1..], changes[0].span.end, i - 1);
             var gap := Gap(text, changes[1..], changes[0].span.end, i - 1);
             && PlacedAt(rest, sh, gap)
             && (i < |changes| ==> PlacedAt(rest, sh + |gap|, changes[1..][i - 1].text))
    ensures PlacedAt(Stitch(text, changes, from), Shift(changes, from, i), Gap(text, changes, from, i))
    ensures i < |changes| ==>
              PlacedAt(Stitch(text, changes, from),
                       Shift(changes, from, i) + |Gap(text, changes, from, i)|,
                       changes[i].text)
  {
    var c := changes[0];
    var head := text[from..c.span.start] + c.text;
    var rest := Stitch(text, changes[1..], c.span.end);
    var out := Stitch(text, changes, from);
    assert out == head + rest;
    var gap := Gap(text, changes[1..], c.span.end, i - 1);
    assert GapStart(changes[1..], c.span.end, i - 1) == GapStart(changes, from, i);
    assert GapEnd(text, changes[1..], i - 1) == GapEnd(text, changes, i);
    assert gap == Gap(text, changes, from, i);
    var sh := Shift(changes[1..], c.span.end, i - 1);
    var at := Shift(changes, from, i);
    assert at == |head| + sh;
    PlacedAfter(head, rest, sh, gap, out, at);
    if i < |changes| {
      assert changes[1..][i - 1] == changes[i];
      PlacedAfter(head, rest, sh + |gap|, changes[i].text, out, at + |gap|);
    }
  }

  /** One step of apply_changes: the rewrite from edit `i` on is the gap
      before it, its replacement, and the rewrite after it. */
  lemma StitchUnfold(text: string, changes: seq<Change>, i: nat, lastEnd: nat)
    requires i < |changes| && Applicable(text, changes[i..], lastEnd)
    ensures lastEnd <= changes[i].span.start <= |text|
    ensures Applicable(text, changes[i + 1..], changes[i].span.end)
    ensures Stitch(text, changes[i..], lastEnd)
              == text[lastEnd..changes[i].span.start] + changes[i].text
                 + Stitch(text, changes[i + 1..], changes[i].span.end)
  {
    assert changes[i..][0] == changes[i];
    assert changes[i..][1..] == changes[i + 1..];
  }

  /** apply_changes: copy the original text up to each edit, then the
      edit's replacement, then the rest after the last edit. */
  method ApplyChanges(text: string, changes: seq<Change>) returns (result: string)
    requires Applicable(text, changes, 0)
    ensures result == Stitch(text, changes, 0)
    ensures changes == [] ==> result == text
    ensures |result| == |text| + Delta(changes)
  {
    result := [];
    var lastEnd: nat := 0;
    assert changes[0..] == changes;
    for i := 0 to |changes|
      invariant Applicable(text, changes[i..], lastEnd)
      invariant result + Stitch(text, changes[i..], lastEnd) == Stitch(text, changes, 0)
    {
      var c := changes[i];
      StitchUnfold(text, changes, i, lastEnd);
      var piece := text[lastEnd..c.span.start] + c.text;
      ghost var later := Stitch(text, changes[i + 1..], c.span.end);
      assert result + (piece + later) == (result + piece) + later;
      result := result + piece;
      lastEnd := c.span.end;
    }
    assert changes[|changes|..] == [];
    result := result + text[lastEnd..];
    StitchLength(text, changes, 0);
  }
}
