/** `IdentifierCollector` of `visitors.rs`: the visitor that turns a parsed
    file into its ordered list of scoped identifiers.

    `CollectStep` is the specification of one traversal callback over a
    `CollectorState` value; the class `IdentifierCollector` keeps the same
    state in fields and updates them in place, and each of its methods is
    proved to do what the specification says. */
module Collector {
  import opened Types
  import opened Scopes

  datatype CollectorState = CollectorState(
    scope: ScopeState,
    identifiers: seq<Identifier>,
    ignores: seq<(string, nat)>,  // (function name, label of the scope its own walk is about to enter)
    classScope: Option<nat>)      // label of the body scope of the class being visited

  /** A freshly created collector. */
  const Fresh := CollectorState(Initial, [], [], None)

  /** What the collector keeps true: the scope invariant, every identifier's
      `id` is its index, and no `(name, scope)` pair is recorded twice. */
  predicate Inv(st: CollectorState) {
    ScopeValid(st.scope) && IdsAreIndices(st.identifiers) && UniqueKeys(st.identifiers)
  }

  /** add_identifier_with_scope: record `name` at `scope` unless that pair is
      ignored or already recorded. */
  function WithIdentifierAt(st: CollectorState, name: string, scope: nat): (r: CollectorState)
    ensures r.scope == st.scope && r.ignores == st.ignores && r.classScope == st.classScope
    ensures st.identifiers <= r.identifiers && |r.identifiers| <= |st.identifiers| + 1
    ensures |r.identifiers| == |st.identifiers| + 1 <==>
              (name, scope) !in st.ignores && !HasKey(st.identifiers, name, scope)
    ensures |r.identifiers| == |st.identifiers| + 1 ==>
              r.identifiers[|st.identifiers|] == Identifier(name, scope, |st.identifiers|)
    ensures HasKey(r.identifiers, name, scope) <==>
              HasKey(st.identifiers, name, scope) || (name, scope) !in st.ignores
    ensures Inv(st) ==> Inv(r)
  {
    if (name, scope) in st.ignores || HasKey(st.identifiers, name, scope) then st
    else
      var r := st.(identifiers := st.identifiers + [Identifier(name, scope, |st.identifiers|)]);
      assert r.identifiers[|st.identifiers|].name == name;
      r
  }

  /** add_identifier: the same, at the current scope. */
  function WithIdentifier(st: CollectorState, name: string): (r: CollectorState)
    ensures r.scope == st.scope && r.ignores == st.ignores
    ensures st.identifiers <= r.identifiers && |r.identifiers| <= |st.identifiers| + 1
    ensures HasKey(r.identifiers, name, st.scope.current) <==>
              HasKey(st.identifiers, name, st.scope.current) || (name, st.scope.current) !in st.ignores
  {
    WithIdentifierAt(st, name, st.scope.current)
  }

  /** The source unwraps the static name of a property key; a computed key
      without one makes the traversal panic. */
  predicate Accepts(e: Event) {
    !(e.PropertyKey? && e.key.ComputedKey? && e.key.staticName.None?)
  }

  predicate AllAccepted(events: seq<Event>) {
    forall i :: 0 <= i < |events| ==> Accepts(events[i])
  }

  /** PropertyKey::name, for keys that have one. */
  function KeyName(k: Key): string
    requires !(k.ComputedKey? && k.staticName.None?)
  {
    match k
    case StaticKey(name, _) => name
    case PrivateKey(name, _) => name
    case ComputedKey(staticName) => staticName.value
  }

  /** One traversal callback of the collector. */
  function CollectStep(st: CollectorState, e: Event): (r: CollectorState)
    requires Accepts(e)
    ensures r.scope == ScopeEffect(st.scope, e)
    ensures st.identifiers <= r.identifiers && |r.identifiers| <= |st.identifiers| + 1
  {
    match e
    case EnterScope => st.(scope := Enter(st.scope))
    case LeaveScope => st.(scope := Leave(st.scope))
    case EnterClass => st.(classScope := Some(st.scope.head + 1))
    case LeaveClass => st.(classScope := None)
    case Function(id) =>
      if id.None? then st
      else
        var added := WithIdentifier(st, id.value.name);
        added.(ignores := added.ignores + [(id.value.name, st.scope.head + 1)])
    case ObjectExpression => st.(scope := Enter(st.scope))
    case BindingIdentifier(name, _) => WithIdentifier(st, name)
    case IdentifierReference(_, _) => st
    case StaticMember(onThis, name, _) =>
      if !onThis then st
      else if st.classScope.Some? then WithIdentifierAt(st, name, st.classScope.value)
      else WithIdentifier(st, name)
    case PropertyKey(key) => WithIdentifier(st, KeyName(key))
    case PrivateIdentifier(_, _) => st
  }

  /** Every callback keeps the collector invariant. */
  lemma CollectStepInv(st: CollectorState, e: Event)
    requires Inv(st) && Accepts(e)
    ensures Inv(CollectStep(st, e))
  {
    match e
    case Function(id) =>
      if id.Some? {
        assert Inv(WithIdentifier(st, id.value.name));
      }
    case _ =>
  }

  /** The collector's state after a whole event sequence. */
  function CollectRun(st: CollectorState, events: seq<Event>): (r: CollectorState)
    requires AllAccepted(events)
    ensures r.scope == ScopeRun(st.scope, events)
    ensures st.identifiers <= r.identifiers
    decreases |events|
  {
    if events == [] then st
    else
      var n := |events| - 1;
      CollectStep(CollectRun(st, events[..n]), events[n])
  }

  /** The collector's invariant holds after any run: identifiers never
      repeat a `(name, scope)` pair and each `id` is its index. */
  lemma {:induction false} CollectRunInv(st: CollectorState, events: seq<Event>)
    requires Inv(st) && AllAccepted(events)
    ensures Inv(CollectRun(st, events))
    decreases |events|
  {
    if events != [] {
      CollectRunInv(st, events[..|events| - 1]);
      CollectStepInv(CollectRun(st, events[..|events| - 1]), events[|events| - 1]);
    }
  }

  /** The identifiers of a whole file all carry their own index as `id` and
      no `(name, scope)` pair twice. */
  lemma CollectedIdentifiersWellFormed(events: seq<Event>)
    requires AllAccepted(events)
    ensures IdsAreIndices(CollectRun(Fresh, events).identifiers)
    ensures UniqueKeys(CollectRun(Fresh, events).identifiers)
  {
    CollectRunInv(Fresh, events);
  }

  /** A named function is recorded once, in the scope that encloses it: the
      second visit of its name, right after the traversal enters the
      function's own scope, is suppressed by the ignore list. */
  lemma FunctionNameRecordedOnce(st: CollectorState, b: Binding, span: Span)
    ensures var after := CollectStep(st, Function(Some(b)));
            CollectRun(st, [Function(Some(b)), EnterScope, BindingIdentifier(b.name, span)]).identifiers
              == after.identifiers
    ensures HasKey(CollectStep(st, Function(Some(b))).identifiers, b.name, st.scope.current) <==>
              HasKey(st.identifiers, b.name, st.scope.current) || (b.name, st.scope.current) !in st.ignores
  {
    var s1 := CollectStep(st, Function(Some(b)));
    var s2 := CollectStep(s1, EnterScope);
    CollectRunThree(st, Function(Some(b)), EnterScope, BindingIdentifier(b.name, span));
    FunctionStepIgnores(st, b);
    EnterStepKeeps(s1);
    IgnoredBindingSkipped(s2, b.name, span);
  }

  /** A named function's callback records its name like a binding and
      ignores the name in the scope about to be entered. */
  lemma FunctionStepIgnores(st: CollectorState, b: Binding)
    ensures var s1 := CollectStep(st, Function(Some(b)));
            s1.scope == st.scope && (b.name, st.scope.head + 1) in s1.ignores &&
            s1.identifiers == WithIdentifier(st, b.name).identifiers
  {
  }

  /** Entering a scope changes only the scope state. */
  lemma EnterStepKeeps(st: CollectorState)
    ensures var s := CollectStep(st, EnterScope);
            s.scope == Enter(st.scope) && s.ignores == st.ignores && s.identifiers == st.identifiers &&
            s.classScope == st.classScope
  {
  }

  /** A binding whose name is ignored in the current scope is dropped. */
  lemma IgnoredBindingSkipped(st: CollectorState, name: string, span: Span)
    requires (name, st.scope.current) in st.ignores
    ensures CollectStep(st, BindingIdentifier(name, span)) == st
  {
  }

  /** Unfolds a run of three callbacks. */
  lemma CollectRunThree(st: CollectorState, a: Event, b: Event, c: Event)
    requires Accepts(a) && Accepts(b) && Accepts(c)
    ensures AllAccepted([a, b, c])
    ensures CollectRun(st, [a, b, c]) == CollectStep(CollectStep(CollectStep(st, a), b), c)
  {
    var ev := [a, b, c];
    assert [a][..0] == [];
    assert AllAccepted([a]);
    assert CollectRun(st, [a]) == CollectStep(st, a);
    assert [a, b][..1] == [a];
    assert AllAccepted([a, b]);
    assert CollectRun(st, [a, b]) == CollectStep(CollectStep(st, a), b);
    assert ev[..2] == [a, b];
  }

  /** Inside a class, a `this.x` member is attributed to the class body's
      scope even when it occurs in a method nested one scope deeper. */
  lemma ThisMemberInClassBody(st: CollectorState, name: string, span: Span)
    requires (name, st.scope.head + 1) !in st.ignores
    ensures var ev := [EnterClass, EnterScope, EnterScope, StaticMember(true, name, span)];
            HasKey(CollectRun(st, ev).identifiers, name, st.scope.head + 1)
  {
    var member := StaticMember(true, name, span);
    var ev := [EnterClass, EnterScope, EnterScope, member];
    var s1 := CollectStep(st, EnterClass);
    var s2 := CollectStep(s1, EnterScope);
    var s3 := CollectStep(s2, EnterScope);
    CollectRunFour(st, EnterClass, EnterScope, EnterScope, member);
    ClassStepMarks(st);
    EnterStepKeeps(s1);
    EnterStepKeeps(s2);
    ThisMemberStep(s3, name, span);
  }

  /** Entering a class marks the label its body scope will receive. */
  lemma ClassStepMarks(st: CollectorState)
    ensures var s := CollectStep(st, EnterClass);
            s.classScope == Some(st.scope.head + 1) && s.ignores == st.ignores && s.scope == st.scope
  {
  }

  /** Inside a class, `this.<name>` is recorded at the class body's scope. */
  lemma ThisMemberStep(st: CollectorState, name: string, span: Span)
    requires st.classScope.Some?
    ensures CollectStep(st, StaticMember(true, name, span)) == WithIdentifierAt(st, name, st.classScope.value)
  {
  }

  /** Unfolds a run of four callbacks. */
  lemma CollectRunFour(st: CollectorState, a: Event, b: Event, c: Event, d: Event)
    requires Accepts(a) && Accepts(b) && Accepts(c) && Accepts(d)
    ensures AllAccepted([a, b, c, d])
    ensures CollectRun(st, [a, b, c, d]) == CollectStep(CollectStep(CollectStep(CollectStep(st, a), b), c), d)
  {
    CollectRunThree(st, a, b, c);
    var ev := [a, b, c, d];
    assert ev[..3] == [a, b, c];
  }

  /** The collector of `visitors.rs`, its state kept in fields. */
  class IdentifierCollector {
    var identifiers: seq<Identifier>
    var scopeHead: nat
    var scopeId: nat
    var scopeStack: seq<nat>
    var ignores: seq<(string, nat)>
    var currentClassScope: Option<nat>

    function State(): CollectorState
      reads this
    {
      CollectorState(ScopeState(scopeHead, scopeId, scopeStack), identifiers, ignores, currentClassScope)
    }

    ghost predicate Valid()
      reads this
    {
      Inv(State())
    }

    constructor ()
      ensures Valid() && State() == Fresh
    {
      identifiers := [];
      scopeHead, scopeId, scopeStack := 0, 0, [];
      ignores := [];
      currentClassScope := None;
    }

    method AddIdentifierWithScope(name: string, scope: nat)
      requires Valid()
      modifies this
      ensures Valid() && State() == WithIdentifierAt(old(State()), name, scope)
    {
      if (name, scope) in ignores {
        return;
      }
      if HasKey(identifiers, name, scope) {
        return;
      }
      identifiers := identifiers + [Identifier(name, scope, |identifiers|)];
    }

    method AddIdentifier(name: string)
      requires Valid()
      modifies this
      ensures Valid() && State() == WithIdentifier(old(State()), name)
    {
      AddIdentifierWithScope(name, scopeId);
    }

    method EnterScope()
      requires Valid()
      modifies this
      ensures Valid() && State() == old(State()).(scope := Enter(old(State()).scope))
    {
      scopeHead := scopeHead + 1;
      scopeId := scopeHead;
      scopeStack := scopeStack + [scopeId];
    }

    method LeaveScope()
      requires Valid()
      modifies this
      ensures Valid() && State() == old(State()).(scope := Leave(old(State()).scope))
    {
      if scopeStack != [] {
        scopeStack := scopeStack[..|scopeStack| - 1];
      }
      scopeId := if scopeStack == [] then 0 else scopeStack[|scopeStack| - 1];
    }

    /** enter_node; only a class node changes anything. */
    method EnterNode(isClass: bool)
      requires Valid()
      modifies this
      ensures Valid()
      ensures State() == if isClass then CollectStep(old(State()), EnterClass) else old(State())
    {
      if isClass {
        currentClassScope := Some(scopeHead + 1);
      }
    }

    /** leave_node; only a class node changes anything. */
    method LeaveNode(isClass: bool)
      requires Valid()
      modifies this
      ensures Valid()
      ensures State() == if isClass then CollectStep(old(State()), LeaveClass) else old(State())
    {
      if isClass {
        currentClassScope := None;
      }
    }

    method VisitStaticMemberExpression(onThis: bool, name: string, span: Span)
      requires Valid()
      modifies this
      ensures Valid() && State() == CollectStep(old(State()), StaticMember(onThis, name, span))
    {
      if onThis {
        if currentClassScope.Some? {
          AddIdentifierWithScope(name, currentClassScope.value);
        } else {
          AddIdentifier(name);
        }
      }
    }

    method VisitPropertyKey(key: Key)
      requires Valid() && Accepts(PropertyKey(key))
      modifies this
      ensures Valid() && State() == CollectStep(old(State()), PropertyKey(key))
    {
      AddIdentifier(KeyName(key));
    }

    method VisitFunction(id: Option<Binding>)
      requires Valid()
      modifies this
      ensures Valid() && State() == CollectStep(old(State()), Function(id))
    {
      if id.Some? {
        AddIdentifier(id.value.name);
        ignores := ignores + [(id.value.name, scopeHead + 1)];
      }
    }

    /** The traversal opens no scope for an object literal, so the collector
        opens one itself; nothing closes it. */
    method VisitObjectExpression()
      requires Valid()
      modifies this
      ensures Valid() && State() == CollectStep(old(State()), ObjectExpression)
    {
      EnterScope();
    }

    method VisitBindingIdentifier(name: string)
      requires Valid()
      modifies this
      ensures Valid() && State() == WithIdentifier(old(State()), name)
    {
      AddIdentifier(name);
    }

    /** Dispatch of one traversal callback. */
    method Visit(e: Event)
      requires Valid() && Accepts(e)
      modifies this
      ensures Valid() && State() == CollectStep(old(State()), e)
    {
      match e
      case EnterScope => EnterScope();
      case LeaveScope => LeaveScope();
      case EnterClass => EnterNode(true);
      case LeaveClass => LeaveNode(true);
      case Function(id) => VisitFunction(id);
      case ObjectExpression => VisitObjectExpression();
      case BindingIdentifier(name, _) => VisitBindingIdentifier(name);
      case IdentifierReference(_, _) =>
      case StaticMember(onThis, name, span) => VisitStaticMemberExpression(onThis, name, span);
      case PropertyKey(key) => VisitPropertyKey(key);
      case PrivateIdentifier(_, _) =>
    }

    /** visit_program: every callback of the traversal, in order. */
    method Walk(events: seq<Event>)
      requires Valid() && AllAccepted(events)
      modifies this
      ensures Valid() && State() == CollectRun(old(State()), events)
    {
      for i := 0 to |events|
        invariant Valid() && State() == CollectRun(old(State()), events[..i])
      {
        assert events[..i + 1][..i] == events[..i];
        Visit(events[i]);
      }
      assert events[..|events|] == events;
    }
  }
}
