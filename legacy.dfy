/** The earlier identifier collector of `visitor.rs`.  The tool's entry
    point does not declare it, so it stands alone here.  It labels every
    identifier it records with the current nesting depth rather than a
    scope id, and it keeps every occurrence, duplicates included.

    As for the newer visitors, the parser and its traversal are not part
    of this model: a parse reaches the collector as a sequence of events,
    one per callback, carrying the simple names the callback reads (a
    binding that is not a plain identifier, or a key without a static
    name, is `None`). */
module LegacyVisitor {
  import opened Types

  /** The largest value of the `u32` depth counter. */
  const U32_MAX: nat := 0xFFFF_FFFF

  datatype Event =
    | EnterScope
    | LeaveScope
    | VariableDeclarator(binding: Option<string>)                  // visit_variable_declarator
    | Function(id: Option<string>, params: seq<Option<string>>)   // visit_function, before the function's scope is entered
    | ArrowFunction(params: seq<Option<string>>)                   // visit_arrow_function_expression
    | Class(id: Option<string>)                                    // visit_class
    | MethodDefinition(key: Option<string>, params: seq<Option<string>>)
    | PropertyDefinition(key: Option<string>)

  /** A recorded identifier: its name, the depth at which it was seen, and
      its position in the list. */
  type Entry = (string, nat, nat)

  datatype CollectorState = CollectorState(identifiers: seq<Entry>, currentScope: nat)

  /** The state of a freshly created collector. */
  const Fresh := CollectorState([], 0)

  /** The names present among optional names, in order. */
  function Present(xs: seq<Option<string>>): (r: seq<string>)
    ensures |r| <= |xs|
    ensures forall n :: n in r <==> Some(n) in xs
    decreases |xs|
  {
    if xs == [] then []
    else
      var n := |xs| - 1;
      var before := Present(xs[..n]);
      assert forall x :: x in xs <==> x in xs[..n] || x == xs[n];
      if xs[n].Some? then before + [xs[n].value] else before
  }

  /** The names an event's callback records, in the order it records
      them: a function's or method's own name before its parameters. */
  function Names(e: Event): (r: seq<string>)
    ensures e.EnterScope? || e.LeaveScope? ==> r == []
    ensures e.VariableDeclarator? ==> |r| <= 1 && forall n :: n in r <==> e.binding == Some(n)
    ensures e.Class? ==> |r| <= 1 && forall n :: n in r <==> e.id == Some(n)
    ensures e.PropertyDefinition? ==> |r| <= 1 && forall n :: n in r <==> e.key == Some(n)
    ensures e.ArrowFunction? ==> forall n :: n in r <==> Some(n) in e.params
    ensures e.Function? ==> forall n :: n in r <==> e.id == Some(n) || Some(n) in e.params
    ensures e.MethodDefinition? ==> forall n :: n in r <==> e.key == Some(n) || Some(n) in e.params
  {
    match e
    case VariableDeclarator(b) => Present([b])
    case Function(id, ps) => Present([id]) + Present(ps)
    case ArrowFunction(ps) => Present(ps)
    case Class(id) => Present([id])
    case MethodDefinition(k, ps) => Present([k]) + Present(ps)
    case PropertyDefinition(k) => Present([k])
    case _ => []
  }

  /** The entries for `names` pushed one after the other at depth `scope`
      onto a list of length `start`. */
  function Labelled(names: seq<string>, scope: nat, start: nat): (r: seq<Entry>)
    ensures |r| == |names|
  {
    seq(|names|, i requires 0 <= i < |names| => (names[i], scope, start + i))
  }

  /** Pushing two name lists one after the other pushes their concatenation. */
  lemma PushedTwice(before: seq<Entry>, xs: seq<string>, ys: seq<string>, scope: nat)
    ensures (before + Labelled(xs, scope, |before|)) + Labelled(ys, scope, |before| + |xs|)
              == before + Labelled(xs + ys, scope, |before|)
  {
    LabelledConcat(xs, ys, scope, |before|);
    var a, b := Labelled(xs, scope, |before|), Labelled(ys, scope, |before| + |xs|);
    assert before + (a + b) == (before + a) + b;
  }

  lemma LabelledAppend(names: seq<string>, x: string, scope: nat, start: nat)
    ensures Labelled(names + [x], scope, start) == Labelled(names, scope, start) + [(x, scope, start + |names|)]
  {
  }

  /** Pushing two lists of names is pushing the first, then the second. */
  lemma LabelledConcat(a: seq<string>, b: seq<string>, scope: nat, start: nat)
    ensures Labelled(a + b, scope, start) == Labelled(a, scope, start) + Labelled(b, scope, start + |a|)
  {
    var l, r := Labelled(a + b, scope, start), Labelled(a, scope, start) + Labelled(b, scope, start + |a|);
    forall i | 0 <= i < |l|
      ensures l[i] == r[i]
    {
      if i >= |a| {
        assert (a + b)[i] == b[i - |a|];
      }
    }
  }

  /** The counter neither overflows on entry nor underflows on exit. */
  predicate Fits(st: CollectorState, e: Event) {
    && (e.EnterScope? ==> st.currentScope < U32_MAX)
    && (e.LeaveScope? ==> st.currentScope > 0)
  }

  /** The effect of one callback.  Scope entry and exit move the depth by
      one; every other callback pushes its names at the current depth. */
  function Step(st: CollectorState, e: Event): (r: CollectorState)
    requires Fits(st, e)
    ensures st.identifiers <= r.identifiers
    ensures r.currentScope == if e.EnterScope? then st.currentScope + 1
                              else if e.LeaveScope? then st.currentScope - 1
                              else st.currentScope
    ensures forall i :: |st.identifiers| <= i < |r.identifiers| ==>
              r.identifiers[i].1 == st.currentScope && r.identifiers[i].2 == i
    ensures e.EnterScope? || e.LeaveScope? ==> r.identifiers == st.identifiers
    ensures !e.EnterScope? && !e.LeaveScope? ==>
              r.identifiers == st.identifiers + Labelled(Names(e), st.currentScope, |st.identifiers|)
  {
    match e
    case EnterScope => st.(currentScope := st.currentScope + 1)
    case LeaveScope => st.(currentScope := st.currentScope - 1)
    case _ => st.(identifiers := st.identifiers + Labelled(Names(e), st.currentScope, |st.identifiers|))
  }

  /** A callback other than scope entry or exit pushes its names. */
  lemma StepPush(st: CollectorState, e: Event)
    requires !e.EnterScope? && !e.LeaveScope?
    ensures Step(st, e) == CollectorState(st.identifiers + Labelled(Names(e), st.currentScope, |st.identifiers|), st.currentScope)
  {
  }

  /** Every callback of the sequence fits the counter at its turn. */
  predicate Runs(st: CollectorState, events: seq<Event>)
    decreases |events|
  {
    events == [] || (Fits(st, events[0]) && Runs(Step(st, events[0]), events[1..]))
  }

  /** The state after a whole event sequence. */
  function Run(st: CollectorState, events: seq<Event>): (r: CollectorState)
    requires Runs(st, events)
    ensures st.identifiers <= r.identifiers
    decreases |events|
  {
    if events == [] then st else Run(Step(st, events[0]), events[1..])
  }

  function EnterCount(events: seq<Event>): nat
    decreases |events|
  {
    if events == [] then 0 else (if events[0].EnterScope? then 1 else 0) + EnterCount(events[1..])
  }

  function LeaveCount(events: seq<Event>): nat
    decreases |events|
  {
    if events == [] then 0 else (if events[0].LeaveScope? then 1 else 0) + LeaveCount(events[1..])
  }

  /** Every entry's third component is its own index. */
  predicate OwnIndices(ids: seq<Entry>) {
    forall i :: 0 <= i < |ids| ==> ids[i].2 == i
  }

  /** A run only appends, and every entry it appends carries its own index. */
  lemma {:induction false} RunKeepsIndices(st: CollectorState, events: seq<Event>)
    requires Runs(st, events) && OwnIndices(st.identifiers)
    ensures OwnIndices(Run(st, events).identifiers)
    ensures st.identifiers <= Run(st, events).identifiers
    decreases |events|
  {
    if events != [] {
      RunKeepsIndices(Step(st, events[0]), events[1..]);
    }
  }

  /** The counter is a nesting depth: the starting depth plus the scopes
      entered minus the scopes left. */
  lemma {:induction false} DepthCounts(st: CollectorState, events: seq<Event>)
    requires Runs(st, events)
    ensures Run(st, events).currentScope + LeaveCount(events) == st.currentScope + EnterCount(events)
    decreases |events|
  {
    if events != [] {
      DepthCounts(Step(st, events[0]), events[1..]);
    }
  }

  /** Two sibling scopes get the same label: the depth does not tell
      them apart. */
  lemma SiblingScopesShareDepth()
    ensures var events := [EnterScope, VariableDeclarator(Some("a")), LeaveScope,
                           EnterScope, VariableDeclarator(Some("b")), LeaveScope];
            Runs(Fresh, events) && Run(Fresh, events) == CollectorState([("a", 1, 0), ("b", 1, 1)], 0)
  {
    var events := [EnterScope, VariableDeclarator(Some("a")), LeaveScope,
                   EnterScope, VariableDeclarator(Some("b")), LeaveScope];
    var s0 := CollectorState([("a", 1, 0)], 0);
    var s1 := CollectorState([("a", 1, 0), ("b", 1, 1)], 0);
    DeclareInScope(Fresh, "a");
    assert Fresh.identifiers + [("a", 1, 0)] == s0.identifiers;
    DeclareInScope(s0, "b");
    assert s0.identifiers + [("b", 1, 1)] == s1.identifiers;
    assert events[..3] == [EnterScope, VariableDeclarator(Some("a")), LeaveScope];
    assert events[3..] == [EnterScope, VariableDeclarator(Some("b")), LeaveScope];
    RunSplit(Fresh, events[..3], events[3..]);
    assert events[..3] + events[3..] == events;
  }

  /** A scope holding one declaration: the name is recorded one level
      deeper, and the depth comes back. */
  lemma DeclareInScope(st: CollectorState, name: string)
    requires st.currentScope < U32_MAX
    ensures var events := [EnterScope, VariableDeclarator(Some(name)), LeaveScope];
            && Runs(st, events)
            && Run(st, events)
                 == CollectorState(st.identifiers + [(name, st.currentScope + 1, |st.identifiers|)], st.currentScope)
  {
    var s1 := Step(st, EnterScope);
    var s2 := Step(s1, VariableDeclarator(Some(name)));
    DeclaredName(s1, name);
    RunThree(st, EnterScope, VariableDeclarator(Some(name)), LeaveScope);
  }

  /** A plain declaration records exactly its name. */
  lemma DeclaredName(st: CollectorState, name: string)
    ensures Step(st, VariableDeclarator(Some(name)))
              == st.(identifiers := st.identifiers + [(name, st.currentScope, |st.identifiers|)])
  {
    assert Present([Some(name)]) == [name];
    assert Labelled([name], st.currentScope, |st.identifiers|) == [(name, st.currentScope, |st.identifiers|)];
  }

  /** Unfolds a run of three callbacks. */
  lemma RunThree(st: CollectorState, a: Event, b: Event, c: Event)
    requires Fits(st, a) && Fits(Step(st, a), b) && Fits(Step(Step(st, a), b), c)
    ensures Runs(st, [a, b, c]) && Run(st, [a, b, c]) == Step(Step(Step(st, a), b), c)
  {
    var s1 := Step(st, a);
    var s2 := Step(s1, b);
    assert [c][1..] == [];
    assert Run(Step(s2, c), []) == Step(s2, c);
    assert Runs(s2, [c]);
    assert Run(s2, [c]) == Run(Step(s2, [c][0]), [c][1..]);
    assert Runs(s2, [c]) && Run(s2, [c]) == Step(s2, c);
    assert [b, c][1..] == [c];
    assert Runs(s1, [b, c]) && Run(s1, [b, c]) == Run(s2, [c]);
    assert [a, b, c][1..] == [b, c];
  }

  /** A run over a concatenation runs the second part from where the
      first stopped. */
  lemma {:induction false} RunSplit(st: CollectorState, a: seq<Event>, b: seq<Event>)
    requires Runs(st, a) && Runs(Run(st, a), b)
    ensures Runs(st, a + b) && Run(st, a + b) == Run(Run(st, a), b)
    decreases |a|
  {
    if a != [] {
      assert (a + b)[0] == a[0] && (a + b)[1..] == a[1..] + b;
      RunSplit(Step(st, a[0]), a[1..], b);
    } else {
      assert a + b == b;
    }
  }

  /** There is no deduplication: the same callback twice records its names
      twice, at the same depth. */
  lemma NoDeduplication(st: CollectorState, e: Event)
    requires !e.EnterScope? && !e.LeaveScope?
    ensures var n, d := |st.identifiers|, st.currentScope;
            Step(Step(st, e), e)
              == CollectorState(st.identifiers + Labelled(Names(e), d, n) + Labelled(Names(e), d, n + |Names(e)|), d)
  {
    var n, d := |st.identifiers|, st.currentScope;
    var first := Labelled(Names(e), d, n);
    var s1 := Step(st, e);
    StepPush(st, e);
    assert s1 == CollectorState(st.identifiers + first, d);
    assert |s1.identifiers| == n + |Names(e)|;
    StepPush(s1, e);
  }

  /** A function's name and parameters are recorded at the depth outside
      the function, before its own scope is entered. */
  lemma FunctionRecordedOutside(st: CollectorState, name: string, params: seq<Option<string>>)
    requires st.currentScope < U32_MAX
    ensures var n, d := |st.identifiers|, st.currentScope;
            && Runs(st, [Function(Some(name), params), EnterScope])
            && Run(st, [Function(Some(name), params), EnterScope])
                 == CollectorState(st.identifiers + Labelled([name] + Present(params), d, n), d + 1)
  {
    PushThenEnter(st, Function(Some(name), params));
    NamesOfFunction(name, params);
  }

  /** A method's key is recorded first, then its parameters, all at the
      depth outside the method, before its own scope is entered. */
  lemma MethodRecordedOutside(st: CollectorState, key: string, params: seq<Option<string>>)
    requires st.currentScope < U32_MAX
    ensures var n, d := |st.identifiers|, st.currentScope;
            && Runs(st, [MethodDefinition(Some(key), params), EnterScope])
            && Run(st, [MethodDefinition(Some(key), params), EnterScope])
                 == CollectorState(st.identifiers + Labelled([key] + Present(params), d, n), d + 1)
  {
    PushThenEnter(st, MethodDefinition(Some(key), params));
    NamesOfMethod(key, params);
  }

  lemma NamesOfMethod(key: string, params: seq<Option<string>>)
    ensures Names(MethodDefinition(Some(key), params)) == [key] + Present(params)
  {
    assert Present([Some(key)]) == [key];
  }

  lemma NamesOfFunction(name: string, params: seq<Option<string>>)
    ensures Names(Function(Some(name), params)) == [name] + Present(params)
  {
    assert Present([Some(name)]) == [name];
  }

  /** A callback that pushes names, followed by a scope entry. */
  lemma PushThenEnter(st: CollectorState, e: Event)
    requires !e.EnterScope? && !e.LeaveScope? && st.currentScope < U32_MAX
    ensures Runs(st, [e, EnterScope])
    ensures Run(st, [e, EnterScope])
              == CollectorState(st.identifiers + Labelled(Names(e), st.currentScope, |st.identifiers|), st.currentScope + 1)
  {
    var events := [e, EnterScope];
    var s1 := Step(st, e);
    var s2 := Step(s1, EnterScope);
    assert [EnterScope][1..] == [];
    assert Run(s1, [EnterScope]) == s2;
    assert events[1..] == [EnterScope];
    assert Runs(st, events);
    assert Run(st, events) == Run(s1, events[1..]);
  }

  /** The collector itself, with the source's two fields. */
  class IdentifierCollector {
    var identifiers: seq<Entry>
    var currentScope: nat

    function State(): CollectorState
      reads this
    {
      CollectorState(identifiers, currentScope)
    }

    constructor ()
      ensures State() == Fresh
    {
      identifiers := [];
      currentScope := 0;
    }

    /** The entry for `name` if it were pushed now. */
    function GetIdentifierName(name: string): (r: Entry)
      reads this
      ensures State().(identifiers := identifiers + [r]) == Step(State(), VariableDeclarator(Some(name)))
    {
      assert Present([Some(name)]) == [name];
      var index: nat := |identifiers|;
      (name, currentScope, index)
    }

    method EnterScope()
      requires currentScope < U32_MAX
      modifies this
      ensures State() == Step(old(State()), Event.EnterScope)
    {
      currentScope := currentScope + 1;
    }

    method LeaveScope()
      requires currentScope > 0
      modifies this
      ensures State() == Step(old(State()), Event.LeaveScope)
    {
      currentScope := currentScope - 1;
    }

    /** Push the present names among `xs`, one after the other. */
    method PushPresent(xs: seq<Option<string>>)
      modifies this
      ensures currentScope == old(currentScope)
      ensures identifiers == old(identifiers) + Labelled(Present(xs), currentScope, |old(identifiers)|)
    {
      for j := 0 to |xs|
        invariant currentScope == old(currentScope)
        invariant identifiers == old(identifiers) + Labelled(Present(xs[..j]), currentScope, |old(identifiers)|)
      {
        assert xs[..j + 1][..j] == xs[..j] && xs[..j + 1][j] == xs[j];
        ghost var before := Present(xs[..j]);
        if xs[j].Some? {
          assert Present(xs[..j + 1]) == before + [xs[j].value];
          LabelledAppend(before, xs[j].value, currentScope, |old(identifiers)|);
          identifiers := identifiers + [GetIdentifierName(xs[j].value)];
        } else {
          assert Present(xs[..j + 1]) == before;
        }
      }
      assert xs[..|xs|] == xs;
    }

    method VisitVariableDeclarator(binding: Option<string>)
      modifies this
      ensures State() == Step(old(State()), VariableDeclarator(binding))
    {
      PushPresent([binding]);
    }

    method VisitFunction(id: Option<string>, params: seq<Option<string>>)
      modifies this
      ensures State() == Step(old(State()), Function(id, params))
    {
      ghost var before := identifiers;
      PushPresent([id]);
      PushPresent(params);
      PushedTwice(before, Present([id]), Present(params), currentScope);
      StepPush(old(State()), Function(id, params));
    }

    method VisitArrowFunctionExpression(params: seq<Option<string>>)
      modifies this
      ensures State() == Step(old(State()), ArrowFunction(params))
    {
      PushPresent(params);
    }

    method VisitClass(id: Option<string>)
      modifies this
      ensures State() == Step(old(State()), Class(id))
    {
      PushPresent([id]);
    }

    method VisitMethodDefinition(key: Option<string>, params: seq<Option<string>>)
      modifies this
      ensures State() == Step(old(State()), MethodDefinition(key, params))
    {
      ghost var before := identifiers;
      PushPresent([key]);
      PushPresent(params);
      PushedTwice(before, Present([key]), Present(params), currentScope);
      StepPush(old(State()), MethodDefinition(key, params));
    }

    method VisitPropertyDefinition(key: Option<string>)
      modifies this
      ensures State() == Step(old(State()), PropertyDefinition(key))
    {
      PushPresent([key]);
    }

    /** Dispatch one callback. */
    method Visit(e: Event)
      requires Fits(State(), e)
      modifies this
      ensures State() == Step(old(State()), e)
    {
      match e
      case EnterScope => EnterScope();
      case LeaveScope => LeaveScope();
      case VariableDeclarator(b) => VisitVariableDeclarator(b);
      case Function(id, ps) => VisitFunction(id, ps);
      case ArrowFunction(ps) => VisitArrowFunctionExpression(ps);
      case Class(id) => VisitClass(id);
      case MethodDefinition(k, ps) => VisitMethodDefinition(k, ps);
      case PropertyDefinition(k) => VisitPropertyDefinition(k);
    }

    /** The traversal of a whole event sequence. */
    method Walk(events: seq<Event>)
      requires Runs(State(), events)
      modifies this
      ensures State() == Run(old(State()), events)
    {
      for i := 0 to |events|
        invariant Runs(State(), events[i..])
        invariant Run(State(), events[i..]) == Run(old(State()), events)
      {
        assert events[i..][1..] == events[i + 1..];
        Visit(events[i]);
      }
    }
  }
}
