/** Scope tracking shared by both visitors of `visitors.rs`.

    The JavaScript parser and its traversal are not part of this model: a
    parsed file reaches the visitors as a sequence of `Event`s, one per
    callback the traversal makes (scope entry and exit, class entry and
    exit, and one per identifier-bearing node, with its byte span).  The
    traversal of a whole program starts with the program's own scope
    entry.

    Both visitors keep the same three pieces of scope state: a counter of
    scopes entered so far (`head`), the label of the innermost open scope
    (`current`) and the stack of open labels, innermost last. */
module Scopes {
  import opened Types

  /** A named binding together with the span of its name. */
  datatype Binding = Binding(name: string, span: Span)

  /** The key of a property or method definition. */
  datatype Key =
    | StaticKey(name: string, span: Span)        // a plain identifier key
    | PrivateKey(name: string, span: Span)       // `#name`; the name is stored without the sigil
    | ComputedKey(staticName: Option<string>)    // any other key, with its static name when it has one

  /** One callback of the traversal. */
  datatype Event =
    | EnterScope                                            // enter_scope
    | LeaveScope                                            // leave_scope
    | EnterClass                                            // enter_node on a class
    | LeaveClass                                            // leave_node on a class
    | Function(id: Option<Binding>)                         // visit_function, with the function's own name if any
    | ObjectExpression                                      // visit_object_expression
    | BindingIdentifier(name: string, span: Span)           // visit_binding_identifier
    | IdentifierReference(name: string, span: Span)         // visit_identifier_reference
    | StaticMember(onThis: bool, name: string, span: Span)  // visit_static_member_expression: `obj.name`, onThis when obj is `this`
    | PropertyKey(key: Key)                                 // visit_property_key
    | PrivateIdentifier(name: string, span: Span)           // visit_private_identifier

  datatype ScopeState = ScopeState(head: nat, current: nat, stack: seq<nat>)

  /** The state of a freshly created visitor. */
  const Initial := ScopeState(0, 0, [])

  predicate StrictlyIncreasing(s: seq<nat>) {
    forall i, j :: 0 <= i < j < |s| ==> s[i] < s[j]
  }

  /** The innermost open label, or 0 when no scope is open. */
  function Top(stack: seq<nat>): nat {
    if stack == [] then 0 else stack[|stack| - 1]
  }

  /** The invariant both visitors keep: the open labels are strictly
      increasing from outermost to innermost, each was handed out by the
      counter, and `current` is the innermost one (0 when none is open). */
  predicate ScopeValid(s: ScopeState) {
    && StrictlyIncreasing(s.stack)
    && (forall i :: 0 <= i < |s.stack| ==> 1 <= s.stack[i] <= s.head)
    && s.current == Top(s.stack)
  }

  /** enter_scope: raise the counter and open a scope labelled with it. */
  function Enter(s: ScopeState): (r: ScopeState)
    ensures r.head == s.head + 1 && r.current == r.head
    ensures |r.stack| == |s.stack| + 1 && r.stack[..|s.stack|] == s.stack && Top(r.stack) == r.current
    ensures ScopeValid(s) ==> ScopeValid(r) && forall x :: x in s.stack ==> x < r.current
  {
    var next := s.head + 1;
    var stack := s.stack + [next];
    assert stack[..|s.stack|] == s.stack;
    assert forall i :: 0 <= i < |s.stack| ==> stack[i] == s.stack[i];
    ScopeState(next, next, stack)
  }

  /** leave_scope: pop the innermost scope (nothing when none is open) and
      make the new innermost one current, or 0. */
  function Leave(s: ScopeState): (r: ScopeState)
    ensures r.head == s.head
    ensures ScopeValid(s) ==> ScopeValid(r)
    ensures s.stack != [] ==> |r.stack| + 1 == |s.stack| && r.stack == s.stack[..|r.stack|]
    ensures s.stack == [] ==> r.stack == [] && r.current == 0
  {
    var stack := if s.stack == [] then [] else s.stack[..|s.stack| - 1];
    ScopeState(s.head, Top(stack), stack)
  }

  /** Whether the visitors open a scope for this event.  An object
      expression opens one through enter_scope, and nothing closes it. */
  predicate Opens(e: Event) {
    e.EnterScope? || e.ObjectExpression?
  }

  /** The effect an event has on the scope state of either visitor. */
  function ScopeEffect(s: ScopeState, e: Event): ScopeState {
    if Opens(e) then Enter(s)
    else if e.LeaveScope? then Leave(s)
    else s
  }

  /** The scope state after a whole event sequence. */
  function ScopeRun(s: ScopeState, events: seq<Event>): ScopeState
    decreases |events|
  {
    if events == [] then s
    else ScopeEffect(ScopeRun(s, events[..|events| - 1]), events[|events| - 1])
  }

  /** Number of scopes an event sequence opens. */
  function OpenCount(events: seq<Event>): nat
    decreases |events|
  {
    if events == [] then 0
    else OpenCount(events[..|events| - 1]) + (if Opens(events[|events| - 1]) then 1 else 0)
  }

  /** Number of scope exits in an event sequence. */
  function LeaveCount(events: seq<Event>): nat
    decreases |events|
  {
    if events == [] then 0
    else LeaveCount(events[..|events| - 1]) + (if events[|events| - 1].LeaveScope? then 1 else 0)
  }

  /** No prefix leaves more scopes than it opened. */
  predicate NeverUnderflows(events: seq<Event>) {
    forall k :: 0 <= k <= |events| ==> LeaveCount(events[..k]) <= OpenCount(events[..k])
  }

  /** The scope invariant holds after any event sequence. */
  lemma {:induction false} ScopeRunValid(s: ScopeState, events: seq<Event>)
    requires ScopeValid(s)
    ensures ScopeValid(ScopeRun(s, events))
    decreases |events|
  {
    if events != [] {
      ScopeRunValid(s, events[..|events| - 1]);
    }
  }

  lemma {:induction false} OpenCountPrefix(events: seq<Event>, k: nat, m: nat)
    requires k <= m <= |events|
    ensures OpenCount(events[..k]) <= OpenCount(events[..m])
    decreases m - k
  {
    if k < m {
      OpenCountPrefix(events, k, m - 1);
      assert events[..m][..m - 1] == events[..m - 1];
    }
  }

  /** Every scope entry hands out a label that no earlier entry of the
      same run handed out: the labels are flat, run-local and unique. */
  lemma OpenLabelsDistinct(s: ScopeState, events: seq<Event>, k1: nat, k2: nat)
    requires k1 < k2 < |events|
    requires Opens(events[k1]) && Opens(events[k2])
    ensures ScopeRun(s, events[..k1 + 1]).current < ScopeRun(s, events[..k2 + 1]).current
  {
    OpenedLabel(s, events, k1);
    OpenedLabel(s, events, k2);
    OpenCountPrefix(events, k1 + 1, k2);
    var p2 := events[..k2 + 1];
    assert p2[..k2] == events[..k2] && p2[k2] == events[k2];
    assert OpenCount(p2) == OpenCount(events[..k2]) + 1;
  }

  /** A scope opened by event `k` is labelled with the counter's start
      plus the number of scopes opened up to and including it. */
  lemma OpenedLabel(s: ScopeState, events: seq<Event>, k: nat)
    requires k < |events| && Opens(events[k])
    ensures ScopeRun(s, events[..k + 1]).current == s.head + OpenCount(events[..k + 1])
  {
    var p := events[..k + 1];
    assert p[..k] == events[..k] && p[k] == events[k];
    HeadCounts(s, events[..k]);
    HeadCounts(s, p);
  }

  /** The counter after a run is the starting counter plus the scopes opened. */
  lemma {:induction false} HeadCounts(s: ScopeState, events: seq<Event>)
    ensures ScopeRun(s, events).head == s.head + OpenCount(events)
    decreases |events|
  {
    if events != [] {
      HeadCounts(s, events[..|events| - 1]);
    }
  }

  /** A run that never leaves more scopes than it opened keeps every scope
      that was open before it, and ends with as many more as it left open. */
  lemma {:induction false} OuterScopesKept(s: ScopeState, events: seq<Event>)
    requires NeverUnderflows(events)
    ensures |ScopeRun(s, events).stack| == |s.stack| + OpenCount(events) - LeaveCount(events)
    ensures |s.stack| <= |ScopeRun(s, events).stack|
    ensures ScopeRun(s, events).stack[..|s.stack|] == s.stack
    decreases |events|
  {
    if events != [] {
      var n := |events| - 1;
      var p := events[..n];
      forall k | 0 <= k <= |p|
        ensures LeaveCount(p[..k]) <= OpenCount(p[..k])
      {
        assert p[..k] == events[..k];
      }
      OuterScopesKept(s, p);
      assert events[..|events|] == events;
      var before := ScopeRun(s, p);
      if events[n].LeaveScope? {
        assert before.stack[..|s.stack|] == s.stack;
        assert |before.stack| > |s.stack|;
      }
    }
  }

  /** A run that never closes more scopes than it has opened, and closes as
      many as it opens (object expressions included among the openings),
      restores both the open scopes and the current label. */
  lemma BalancedRunRestores(s: ScopeState, events: seq<Event>)
    requires ScopeValid(s)
    requires NeverUnderflows(events)
    requires OpenCount(events) == LeaveCount(events)
    ensures ScopeRun(s, events).stack == s.stack
    ensures ScopeRun(s, events).current == s.current
  {
    OuterScopesKept(s, events);
    ScopeRunValid(s, events);
    var r := ScopeRun(s, events);
    assert r.stack == r.stack[..|s.stack|];
  }

  /** An object literal inside a function opens a scope that nothing
      closes: the function's own exit pops the object's scope instead, so
      the function's scope stays open after it. */
  lemma ObjectScopeStaysOpen(s: ScopeState)
    requires ScopeValid(s)
    ensures ScopeRun(s, [EnterScope, ObjectExpression, LeaveScope]).stack == s.stack + [s.head + 1]
    ensures ScopeRun(s, [EnterScope, ObjectExpression, LeaveScope]).current == s.head + 1
  {
    var ev := [EnterScope, ObjectExpression, LeaveScope];
    assert ev[..2] == [EnterScope, ObjectExpression];
    assert ev[..2][..1] == [EnterScope];
    assert [EnterScope][..0] == [];
    var s1 := ScopeRun(s, [EnterScope]);
    assert s1 == Enter(s);
    var s2 := ScopeRun(s, ev[..2]);
    assert s2 == Enter(s1);
    assert ScopeRun(s, ev) == Leave(s2);
  }
}
