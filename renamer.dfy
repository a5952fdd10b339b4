/** `Renamer` of `visitors.rs`: the visitor that walks the original file
    again, with the same scope rules as the collector, and records one
    edit per identifier-bearing node whose name a mapping renames.

    `Lookup` specifies get_new_identifier and `RenameStep` one traversal
    callback over a `RenamerState` value; the class `Renamer` keeps the
    state in fields and is proved to follow them. */
module Renaming {
  import opened Types
  import opened Scopes
  import Collector

  /** A mapping that renames `name` declared in scope `scope`. */
  predicate Matches(m: Mapping, name: string, scope: nat) {
    m.original.name == name && m.original.scopeId == scope
  }

  /** Index of the first mapping, in list order, that renames `name` in
      `scope`, or |ms| when there is none. */
  function FirstMatch(ms: seq<Mapping>, name: string, scope: nat): (k: nat)
    ensures k <= |ms|
    ensures forall j :: 0 <= j < k ==> !Matches(ms[j], name, scope)
    ensures k < |ms| ==> Matches(ms[k], name, scope)
  {
    if ms == [] then 0
    else if Matches(ms[0], name, scope) then 0
    else 1 + FirstMatch(ms[1..], name, scope)
  }

  /** Open scope `stack[i]` is the innermost open scope in which some
      mapping renames `name`. */
  predicate ResolvesAt(stack: seq<nat>, ms: seq<Mapping>, name: string, i: nat)
    requires i < |stack|
  {
    && FirstMatch(ms, name, stack[i]) < |ms|
    && forall i' :: i < i' < |stack| ==> FirstMatch(ms, name, stack[i']) == |ms|
  }

  /** get_new_identifier: the new name of `name`, looked up in the open
      scopes from innermost to outermost; in the first scope that has a
      mapping for it, the first such mapping wins. */
  function Lookup(stack: seq<nat>, ms: seq<Mapping>, name: string): Option<string>
    decreases |stack|
  {
    if stack == [] then None
    else
      var n := |stack| - 1;
      var k := FirstMatch(ms, name, stack[n]);
      if k < |ms| then Some(ms[k].modified.name) else Lookup(stack[..n], ms, name)
  }

  /** The lookup fails exactly when no open scope has a mapping for the
      name; when it succeeds, the new name is that of the first mapping of
      the innermost open scope that has one. */
  lemma LookupSpec(stack: seq<nat>, ms: seq<Mapping>, name: string)
    ensures Lookup(stack, ms, name).None? <==>
              forall i, j :: 0 <= i < |stack| && 0 <= j < |ms| ==> !Matches(ms[j], name, stack[i])
    ensures Lookup(stack, ms, name).Some? ==>
              exists i :: 0 <= i < |stack| && ResolvesAt(stack, ms, name, i) &&
                Lookup(stack, ms, name).value == ms[FirstMatch(ms, name, stack[i])].modified.name
  {
    LookupNone(stack, ms, name);
    LookupSome(stack, ms, name);
    if Lookup(stack, ms, name).Some? {
      var i :| 0 <= i < |stack| && FirstMatch(ms, name, stack[i]) < |ms|;
      assert Matches(ms[FirstMatch(ms, name, stack[i])], name, stack[i]);
    }
  }

  lemma {:induction false} LookupNone(stack: seq<nat>, ms: seq<Mapping>, name: string)
    ensures Lookup(stack, ms, name).None? <==>
              forall i :: 0 <= i < |stack| ==> FirstMatch(ms, name, stack[i]) == |ms|
    decreases |stack|
  {
    if stack != [] {
      var n := |stack| - 1;
      LookupNone(stack[..n], ms, name);
      assert forall i :: 0 <= i < n ==> stack[..n][i] == stack[i];
    }
  }

  lemma {:induction false} LookupSome(stack: seq<nat>, ms: seq<Mapping>, name: string)
    ensures Lookup(stack, ms, name).Some? ==>
              exists i :: 0 <= i < |stack| && ResolvesAt(stack, ms, name, i) &&
                Lookup(stack, ms, name).value == ms[FirstMatch(ms, name, stack[i])].modified.name
    decreases |stack|
  {
    if stack != [] {
      var n := |stack| - 1;
      if FirstMatch(ms, name, stack[n]) < |ms| {
        assert ResolvesAt(stack, ms, name, n);
      } else if Lookup(stack[..n], ms, name).Some? {
        LookupSome(stack[..n], ms, name);
        var r := Lookup(stack[..n], ms, name);
        var i :| 0 <= i < n && ResolvesAt(stack[..n], ms, name, i) &&
                 r.value == ms[FirstMatch(ms, name, stack[..n][i])].modified.name;
        assert forall i' :: 0 <= i' < n ==> stack[..n][i'] == stack[i'];
        assert ResolvesAt(stack, ms, name, i);
      }
    }
  }

  /** The first matching index is the only index with no match before it
      that is a match or the end of the list. */
  lemma FirstMatchUnique(ms: seq<Mapping>, name: string, scope: nat, j: nat)
    requires j <= |ms|
    requires forall j' :: 0 <= j' < j ==> !Matches(ms[j'], name, scope)
    requires j < |ms| ==> Matches(ms[j], name, scope)
    ensures FirstMatch(ms, name, scope) == j
  {
  }

  /** Looking up in the innermost `k` open scopes: the innermost of them
      decides if it has a mapping, otherwise the ones outside it do. */
  lemma LookupUnfold(stack: seq<nat>, ms: seq<Mapping>, name: string, k: nat)
    requires 0 < k <= |stack|
    ensures Lookup(stack[..k], ms, name) ==
              if FirstMatch(ms, name, stack[k - 1]) < |ms|
              then Some(ms[FirstMatch(ms, name, stack[k - 1])].modified.name)
              else Lookup(stack[..k - 1], ms, name)
  {
    assert stack[..k][..k - 1] == stack[..k - 1];
    assert stack[..k][k - 1] == stack[k - 1];
  }

  /** Lexical shadowing: a mapping for `name` in the innermost open scope
      decides, whatever the outer scopes map it to. */
  lemma InnermostWins(outer: seq<nat>, inner: nat, ms: seq<Mapping>, name: string)
    requires FirstMatch(ms, name, inner) < |ms|
    ensures Lookup(outer + [inner], ms, name) == Some(ms[FirstMatch(ms, name, inner)].modified.name)
  {
    assert (outer + [inner])[|outer|] == inner;
  }

  /** A scope without a mapping for `name` defers to the enclosing scopes. */
  lemma OuterScopeDecides(outer: seq<nat>, inner: nat, ms: seq<Mapping>, name: string)
    requires FirstMatch(ms, name, inner) == |ms|
    ensures Lookup(outer + [inner], ms, name) == Lookup(outer, ms, name)
  {
    assert (outer + [inner])[..|outer|] == outer;
    assert (outer + [inner])[|outer|] == inner;
  }

  /** Nested scopes 1 (outer) and 2 (inner) both declare `a`, mapped to `p`
      and `q`: inside scope 2 `a` becomes `q`, inside scope 1 only it
      becomes `p`. */
  lemma ScopePrecedence(o1: Identifier, m1: Identifier, o2: Identifier, m2: Identifier)
    requires o1.name == "a" && o1.scopeId == 1 && m1.name == "p"
    requires o2.name == "a" && o2.scopeId == 2 && m2.name == "q"
    ensures Lookup([1, 2], [Mapping(o1, m1), Mapping(o2, m2)], "a") == Some("q")
    ensures Lookup([1], [Mapping(o1, m1), Mapping(o2, m2)], "a") == Some("p")
  {
    var ms := [Mapping(o1, m1), Mapping(o2, m2)];
    assert FirstMatch(ms, "a", 2) == 1;
    assert FirstMatch(ms, "a", 1) == 0;
    InnermostWins([1], 2, ms, "a");
    InnermostWins([], 1, ms, "a");
    assert [1, 2] == [1] + [2];
    assert [1] == [] + [1];
  }

  /** add_change: record an edit unless the same (span, text) pair is
      already recorded. */
  function WithChange(changes: seq<Change>, c: Change): (r: seq<Change>)
    ensures c in r && changes <= r && |r| <= |changes| + 1
    ensures c in changes ==> r == changes
    ensures Distinct(changes) ==> Distinct(r)
  {
    if c in changes then changes else changes + [c]
  }

  /** The edit for a node at `span` when its lookup found a new name. */
  function Record(changes: seq<Change>, span: Span, newName: Option<string>): seq<Change> {
    if newName.Some? then WithChange(changes, Change(span, newName.value)) else changes
  }

  /** A private name is replaced together with its `#` sigil. */
  function Private(newName: Option<string>): Option<string> {
    if newName.Some? then Some("#" + newName.value) else None
  }

  datatype RenamerState = RenamerState(scope: ScopeState, changes: seq<Change>)

  /** A freshly created renamer. */
  const Start := RenamerState(Initial, [])

  /** The text of an edit is the new name of some mapping, or that name
      with the private-name sigil. */
  predicate FromMappings(ms: seq<Mapping>, text: string) {
    exists j :: 0 <= j < |ms| && (text == ms[j].modified.name || text == "#" + ms[j].modified.name)
  }

  /** What the renamer keeps true: the scope invariant, no edit recorded
      twice, and every edit's text taken from a mapping. */
  predicate RenamerInv(st: RenamerState, ms: seq<Mapping>) {
    && ScopeValid(st.scope)
    && Distinct(st.changes)
    && forall i :: 0 <= i < |st.changes| ==> FromMappings(ms, st.changes[i].text)
  }

  lemma RecordKeepsInv(st: RenamerState, ms: seq<Mapping>, span: Span, name: string, isPrivate: bool)
    ensures var found := Lookup(st.scope.stack, ms, name);
            RenamerInv(st, ms) ==> RenamerInv(st.(changes := Record(st.changes, span, if isPrivate then Private(found) else found)), ms)
  {
    var found := Lookup(st.scope.stack, ms, name);
    LookupSpec(st.scope.stack, ms, name);
    if RenamerInv(st, ms) && found.Some? {
      var i :| 0 <= i < |st.scope.stack| && ResolvesAt(st.scope.stack, ms, name, i) &&
               found.value == ms[FirstMatch(ms, name, st.scope.stack[i])].modified.name;
      assert FromMappings(ms, found.value);
      assert FromMappings(ms, "#" + found.value);
    }
  }

  /** One traversal callback of the renamer. */
  function RenameStep(st: RenamerState, ms: seq<Mapping>, e: Event): (r: RenamerState)
    ensures r.scope == ScopeEffect(st.scope, e)
    ensures st.changes <= r.changes
    ensures RenamerInv(st, ms) ==> RenamerInv(r, ms)
  {
    var stack := st.scope.stack;
    match e
    case EnterScope => st.(scope := Enter(st.scope))
    case LeaveScope => st.(scope := Leave(st.scope))
    case EnterClass => st
    case LeaveClass => st
    case Function(id) =>
      if id.None? then st
      else
        RecordKeepsInv(st, ms, id.value.span, id.value.name, false);
        st.(changes := Record(st.changes, id.value.span, Lookup(stack, ms, id.value.name)))
    case ObjectExpression => st.(scope := Enter(st.scope))
    case BindingIdentifier(name, span) =>
      RecordKeepsInv(st, ms, span, name, false);
      st.(changes := Record(st.changes, span, Lookup(stack, ms, name)))
    case IdentifierReference(name, span) =>
      RecordKeepsInv(st, ms, span, name, false);
      st.(changes := Record(st.changes, span, Lookup(stack, ms, name)))
    case StaticMember(onThis, name, span) =>
      if !onThis then st
      else
        RecordKeepsInv(st, ms, span, name, false);
        st.(changes := Record(st.changes, span, Lookup(stack, ms, name)))
    case PropertyKey(key) =>
      (match key
       case StaticKey(name, span) =>
         RecordKeepsInv(st, ms, span, name, false);
         st.(changes := Record(st.changes, span, Lookup(stack, ms, name)))
       case PrivateKey(name, span) =>
         RecordKeepsInv(st, ms, span, name, true);
         st.(changes := Record(st.changes, span, Private(Lookup(stack, ms, name))))
       case ComputedKey(_) => st)
    case PrivateIdentifier(name, span) =>
      RecordKeepsInv(st, ms, span, name, true);
      st.(changes := Record(st.changes, span, Private(Lookup(stack, ms, name))))
  }

  /** The renamer's state after a whole event sequence. */
  function RenameRun(st: RenamerState, ms: seq<Mapping>, events: seq<Event>): (r: RenamerState)
    ensures r.scope == ScopeRun(st.scope, events)
    ensures st.changes <= r.changes
    decreases |events|
  {
    if events == [] then st
    else
      var n := |events| - 1;
      RenameStep(RenameRun(st, ms, events[..n]), ms, events[n])
  }

  /** After any run the renamer has recorded no edit twice, and every
      edit's text comes from one of the mappings. */
  lemma {:induction false} RenameRunInv(st: RenamerState, ms: seq<Mapping>, events: seq<Event>)
    requires RenamerInv(st, ms)
    ensures RenamerInv(RenameRun(st, ms, events), ms)
    decreases |events|
  {
    if events != [] {
      RenameRunInv(st, ms, events[..|events| - 1]);
    }
  }

  /** The edits of a whole file are distinct and all come from the
      mappings; with no mappings there are no edits. */
  lemma RenamedFileEdits(ms: seq<Mapping>, events: seq<Event>)
    ensures Distinct(RenameRun(Start, ms, events).changes)
    ensures forall c :: c in RenameRun(Start, ms, events).changes ==> FromMappings(ms, c.text)
    ensures ms == [] ==> RenameRun(Start, ms, events).changes == []
  {
    RenameRunInv(Start, ms, events);
    var cs := RenameRun(Start, ms, events).changes;
    if cs != [] {
      assert FromMappings(ms, cs[0].text);
    }
  }

  /** The collector and the renamer assign the same scope labels to the
      same event sequence, which is what lets mappings recorded by one be
      found by the other. */
  lemma ScopesAgree(events: seq<Event>, ms: seq<Mapping>, k: nat)
    requires Collector.AllAccepted(events) && k <= |events|
    ensures Collector.CollectRun(Collector.Fresh, events[..k]).scope
              == RenameRun(Start, ms, events[..k]).scope
    ensures Collector.CollectRun(Collector.Fresh, events[..k]).scope.stack
              == RenameRun(Start, ms, events[..k]).scope.stack
  {
    assert Collector.AllAccepted(events[..k]);
  }

  /** Whether any open scope has a mapping for `name`. */
  predicate Mapped(stack: seq<nat>, ms: seq<Mapping>, name: string) {
    exists i, j :: 0 <= i < |stack| && 0 <= j < |ms| && Matches(ms[j], name, stack[i])
  }

  /** A reference (or a private name) is edited exactly when some open
      scope has a mapping for its name: then the edit at its span carries
      the new name of the innermost such scope's first mapping (behind a
      `#` for a private name); otherwise nothing is recorded. */
  lemma {:induction false} ReferenceRenamedIffMapped(st: RenamerState, ms: seq<Mapping>, name: string, span: Span, isPrivate: bool)
    ensures var e := if isPrivate then PrivateIdentifier(name, span) else IdentifierReference(name, span);
            var r := RenameStep(st, ms, e);
            && (!Mapped(st.scope.stack, ms, name) ==> r.changes == st.changes)
            && (Mapped(st.scope.stack, ms, name) ==>
                  exists i :: 0 <= i < |st.scope.stack| && ResolvesAt(st.scope.stack, ms, name, i) &&
                    var t := ms[FirstMatch(ms, name, st.scope.stack[i])].modified.name;
                    Change(span, if isPrivate then "#" + t else t) in r.changes)
  {
    var stack := st.scope.stack;
    var found := Lookup(stack, ms, name);
    LookupSpec(stack, ms, name);
    var e := if isPrivate then PrivateIdentifier(name, span) else IdentifierReference(name, span);
    var r := RenameStep(st, ms, e);
    assert r.changes == Record(st.changes, span, if isPrivate then Private(found) else found);
    if found.Some? {
      var i :| 0 <= i < |stack| && ResolvesAt(stack, ms, name, i) &&
               found.value == ms[FirstMatch(ms, name, stack[i])].modified.name;
      assert Change(span, if isPrivate then "#" + found.value else found.value) in r.changes;
    }
  }

  /** The renamer of `visitors.rs`, its state kept in fields. */
  class Renamer {
    var changes: seq<Change>
    var mappings: seq<Mapping>
    var scopeHead: nat
    var scopeId: nat
    var scopeStack: seq<nat>

    function State(): RenamerState
      reads this
    {
      RenamerState(ScopeState(scopeHead, scopeId, scopeStack), changes)
    }

    ghost predicate Valid()
      reads this
    {
      RenamerInv(State(), mappings)
    }

    constructor (mappings: seq<Mapping>)
      ensures Valid() && State() == Start && this.mappings == mappings
    {
      changes := [];
      this.mappings := mappings;
      scopeHead, scopeId, scopeStack := 0, 0, [];
    }

    /** The `find` inside get_new_identifier: the first mapping, in list
        order, for `name` in `scope`. */
    method FindMapping(name: string, scope: nat) returns (j: nat)
      ensures j == FirstMatch(mappings, name, scope)
    {
      j := 0;
      while j < |mappings| && !(mappings[j].original.name == name && mappings[j].original.scopeId == scope)
        invariant 0 <= j <= |mappings|
        invariant forall j' :: 0 <= j' < j ==> !Matches(mappings[j'], name, scope)
      {
        j := j + 1;
      }
      FirstMatchUnique(mappings, name, scope, j);
    }

    /** get_new_identifier: scan the open scopes innermost first, and in
        each the mappings in list order. */
    method GetNewIdentifier(name: string) returns (r: Option<string>)
      ensures r == Lookup(scopeStack, mappings, name)
    {
      var k := |scopeStack|;
      assert scopeStack[..k] == scopeStack;
      while k > 0
        invariant 0 <= k <= |scopeStack|
        invariant Lookup(scopeStack[..k], mappings, name) == Lookup(scopeStack, mappings, name)
      {
        var j := FindMapping(name, scopeStack[k - 1]);
        LookupUnfold(scopeStack, mappings, name, k);
        if j < |mappings| {
          return Some(mappings[j].modified.name);
        }
        k := k - 1;
      }
      assert scopeStack[..0] == [];
      r := None;
    }

    method AddChange(span: Span, newName: string)
      requires Valid() && FromMappings(mappings, newName)
      modifies this
      ensures Valid() && mappings == old(mappings)
      ensures State() == old(State()).(changes := WithChange(old(changes), Change(span, newName)))
    {
      if !(Change(span, newName) in changes) {
        changes := changes + [Change(span, newName)];
      }
    }

    /** Look `name` up and record the edit for `span`, with the sigil when
        the node is a private name. */
    method Rename(span: Span, name: string, isPrivate: bool)
      requires Valid()
      modifies this
      ensures Valid() && mappings == old(mappings)
      ensures var found := Lookup(old(scopeStack), mappings, name);
              State() == old(State()).(changes := Record(old(changes), span, if isPrivate then Private(found) else found))
    {
      RecordKeepsInv(State(), mappings, span, name, isPrivate);
      var newName := GetNewIdentifier(name);
      if newName.Some? {
        if isPrivate {
          AddChange(span, "#" + newName.value);
        } else {
          AddChange(span, newName.value);
        }
      }
    }

    method EnterScope()
      requires Valid()
      modifies this
      ensures Valid() && mappings == old(mappings)
      ensures State() == old(State()).(scope := Enter(old(State()).scope))
    {
      scopeHead := scopeHead + 1;
      scopeId := scopeHead;
      scopeStack := scopeStack + [scopeId];
    }

    method LeaveScope()
      requires Valid()
      modifies this
      ensures Valid() && mappings == old(mappings)
      ensures State() == old(State()).(scope := Leave(old(State()).scope))
    {
      if scopeStack != [] {
        scopeStack := scopeStack[..|scopeStack| - 1];
      }
      scopeId := if scopeStack == [] then 0 else scopeStack[|scopeStack| - 1];
    }

    method VisitStaticMemberExpression(onThis: bool, name: string, span: Span)
      requires Valid()
      modifies this
      ensures Valid() && mappings == old(mappings)
      ensures State() == RenameStep(old(State()), mappings, StaticMember(onThis, name, span))
    {
      if onThis {
        Rename(span, name, false);
      }
    }

    method VisitPrivateIdentifier(name: string, span: Span)
      requires Valid()
      modifies this
      ensures Valid() && mappings == old(mappings)
      ensures State() == RenameStep(old(State()), mappings, PrivateIdentifier(name, span))
    {
      Rename(span, name, true);
    }

    /** Only plain and private keys are renamed; computed keys are not. */
    method VisitPropertyKey(key: Key)
      requires Valid()
      modifies this
      ensures Valid() && mappings == old(mappings)
      ensures State() == RenameStep(old(State()), mappings, PropertyKey(key))
    {
      match key
      case StaticKey(name, span) => Rename(span, name, false);
      case PrivateKey(name, span) => Rename(span, name, true);
      case ComputedKey(_) =>
    }

    method VisitFunction(id: Option<Binding>)
      requires Valid()
      modifies this
      ensures Valid() && mappings == old(mappings)
      ensures State() == RenameStep(old(State()), mappings, Function(id))
    {
      if id.Some? {
        Rename(id.value.span, id.value.name, false);
      }
    }

    /** As in the collector, an object literal opens a scope that nothing
        closes. */
    method VisitObjectExpression()
      requires Valid()
      modifies this
      ensures Valid() && mappings == old(mappings)
      ensures State() == RenameStep(old(State()), mappings, ObjectExpression)
    {
      EnterScope();
    }

    method VisitBindingIdentifier(name: string, span: Span)
      requires Valid()
      modifies this
      ensures Valid() && mappings == old(mappings)
      ensures State() == RenameStep(old(State()), mappings, BindingIdentifier(name, span))
    {
      Rename(span, name, false);
    }

    method VisitIdentifierReference(name: string, span: Span)
      requires Valid()
      modifies this
      ensures Valid() && mappings == old(mappings)
      ensures State() == RenameStep(old(State()), mappings, IdentifierReference(name, span))
    {
      Rename(span, name, false);
    }

    /** Dispatch of one traversal callback; the renamer does not react to
        class entry and exit. */
    method Visit(e: Event)
      requires Valid()
      modifies this
      ensures Valid() && mappings == old(mappings)
      ensures State() == RenameStep(old(State()), mappings, e)
    {
      match e
      case EnterScope => EnterScope();
      case LeaveScope => LeaveScope();
      case EnterClass =>
      case LeaveClass =>
      case Function(id) => VisitFunction(id);
      case ObjectExpression => VisitObjectExpression();
      case BindingIdentifier(name, span) => VisitBindingIdentifier(name, span);
      case IdentifierReference(name, span) => VisitIdentifierReference(name, span);
      case StaticMember(onThis, name, span) => VisitStaticMemberExpression(onThis, name, span);
      case PropertyKey(key) => VisitPropertyKey(key);
      case PrivateIdentifier(name, span) => VisitPrivateIdentifier(name, span);
    }

    /** visit_program: every callback of the traversal, in order. */
    method Walk(events: seq<Event>)
      requires Valid()
      modifies this
      ensures Valid() && mappings == old(mappings)
      ensures State() == RenameRun(old(State()), mappings, events)
    {
      for i := 0 to |events|
        invariant Valid() && mappings == old(mappings)
        invariant State() == RenameRun(old(State()), mappings, events[..i])
      {
        assert events[..i + 1][..i] == events[..i];
        Visit(events[i]);
      }
      assert events[..|events|] == events;
    }
  }
}
