/** The type checker and the execution engine: checkType, checkTypes and
    execute. The engine's state — the data stack, the registry of defined
    functions and the stop flag — is a functional `State`, and `Exec` says
    what one call of execute does to it; the `Interpreter` class holds the
    same state in fields and its `Execute` method is proved to do exactly
    what `Exec` says. */
module Language {
  import opened Values
  import opened Errors
  import opened Stacks

  const UNKNOWN_COMMAND_MESSAGE: string := "Given command is not recognized."

  // ---------------------------------------------------------------------
  // Types

  /** checkType: does the element have the described type? */
  function CheckType(elm: Element, t: TypeDesc): (r: bool)
    ensures r ==> KindOf(elm) == t.kind
    ensures r && elm.CommandElement? ==>
      (elm.quoted <==> t.specialization.Some? && t.specialization.value.kind != DataType.Any)
    decreases elm
  {
    if t.specialization.None? || t.specialization.value.kind == DataType.Any then
      // plain type, or a substack specialised by Any: the kinds must agree and
      // a command must not be quoted
      KindOf(elm) == t.kind && !(elm.CommandElement? && elm.quoted)
    else if KindOf(elm) == t.kind && t.kind == DataType.Number then
      t.specialization.value.kind == (if elm.exact then DataType.Exact else DataType.Inexact)
    else if KindOf(elm) == t.kind && t.kind == DataType.Command then
      elm.quoted
    else if KindOf(elm) == t.kind && t.kind == DataType.Substack then
      forall k :: 0 <= k < |elm.items| ==> CheckType(elm.items[k], t.specialization.value)
    else
      false
  }

  function Plain(k: DataType): TypeDesc {
    TypeDesc(k, None)
  }

  /** A bare Any matches nothing: no element has the kind Any. */
  lemma BareAnyMatchesNothing(elm: Element)
    ensures !CheckType(elm, Plain(DataType.Any))
  {
  }

  /** An element never matches a type of another kind, however specialised. */
  lemma KindMismatch(elm: Element, t: TypeDesc)
    requires KindOf(elm) != t.kind
    ensures !CheckType(elm, t)
  {
  }

  /** A plain type matches exactly the elements of its kind, except that a
      quoted command is not a Command. */
  lemma PlainMatch(elm: Element, k: DataType)
    ensures CheckType(elm, Plain(k)) <==> KindOf(elm) == k && !(elm.CommandElement? && elm.quoted)
  {
  }

  /** Number(Exact) and Number(Inexact) split the numbers by exactness. */
  lemma ExactnessMatch(v: real, exact: bool, spec: Option<TypeDesc>)
    ensures CheckType(NumberElement(v, exact), TypeDesc(DataType.Number, Some(TypeDesc(DataType.Exact, spec)))) <==> exact
    ensures CheckType(NumberElement(v, exact), TypeDesc(DataType.Number, Some(TypeDesc(DataType.Inexact, spec)))) <==> !exact
  {
  }

  /** A specialised Command type matches exactly the quoted commands, so it is
      disjoint from the plain Command type. */
  lemma QuotedCommandMatch(elm: Element, t: TypeDesc)
    requires t.kind == DataType.Command && t.specialization.Some? && t.specialization.value.kind != DataType.Any
    ensures CheckType(elm, t) <==> elm.CommandElement? && elm.quoted
    ensures CheckType(elm, t) ==> !CheckType(elm, Plain(DataType.Command))
  {
  }

  /** A specialised Substack type matches a substack exactly when every nested
      element has the specialisation; so the empty substack always matches,
      and a match implies a match of the plain Substack type. */
  lemma SubstackMatch(items: seq<Element>, t: TypeDesc)
    requires t.kind == DataType.Substack && t.specialization.Some? && t.specialization.value.kind != DataType.Any
    ensures CheckType(SubstackElement(items), t) <==> forall k :: 0 <= k < |items| ==> CheckType(items[k], t.specialization.value)
    ensures CheckType(SubstackElement([]), t)
    ensures CheckType(SubstackElement(items), t) ==> CheckType(SubstackElement(items), Plain(DataType.Substack))
  {
  }

  /** Substack(Any) matches every substack, whatever it holds. */
  lemma SubstackAnyMatchesAll(items: seq<Element>, spec: Option<TypeDesc>)
    ensures CheckType(SubstackElement(items), TypeDesc(DataType.Substack, Some(TypeDesc(DataType.Any, spec))))
  {
  }

  /** Any other specialised type matches nothing (the "can't happen" branch). */
  lemma OtherSpecialisedMatchesNothing(elm: Element, t: TypeDesc)
    requires t.specialization.Some? && t.specialization.value.kind != DataType.Any
    requires t.kind != DataType.Number && t.kind != DataType.Command && t.kind != DataType.Substack
    ensures !CheckType(elm, t)
  {
  }

  /** checkTypes as a function of the elements from the top down: descriptor k
      is compared with element k; the first mismatch fails with the expected
      type and the element, and a signature longer than the stack fails with
      the first unmatched type and no element. */
  function CheckTypesSpec(elems: seq<Element>, types: seq<TypeDesc>): Outcome
    decreases |types|
  {
    if types == [] then Pass
    else if elems == [] then Fail(TypeError(types[0], None))
    else if !CheckType(elems[0], types[0]) then Fail(TypeError(types[0], Some(elems[0])))
    else CheckTypesSpec(elems[1..], types[1..])
  }

  /** The signature passes exactly when the stack is at least as deep and every
      descriptor matches its element; extra depth is ignored. */
  lemma {:induction false} CheckTypesPass(elems: seq<Element>, types: seq<TypeDesc>)
    ensures CheckTypesSpec(elems, types).Pass? <==>
      |types| <= |elems| && forall k :: 0 <= k < |types| ==> CheckType(elems[k], types[k])
    decreases |types|
  {
    if types != [] && elems != [] {
      CheckTypesPass(elems[1..], types[1..]);
      if CheckType(elems[0], types[0]) {
        forall k | 1 <= k < |types| && k < |elems|
          ensures elems[k] == elems[1..][k - 1] && types[k] == types[1..][k - 1]
        {
          assert elems[1..][k - 1] == elems[k];
        }
      }
    }
  }

  /** On failure, k is the first descriptor that is not met: either by the
      element at index k, or because the stack has only k elements. */
  lemma {:induction false} CheckTypesFailure(elems: seq<Element>, types: seq<TypeDesc>) returns (k: nat)
    requires CheckTypesSpec(elems, types).Fail?
    ensures k < |types| && k <= |elems|
    ensures forall j :: 0 <= j < k ==> CheckType(elems[j], types[j])
    ensures k < |elems| ==> !CheckType(elems[k], types[k])
    ensures k < |elems| ==> CheckTypesSpec(elems, types).error == TypeError(types[k], Some(elems[k]))
    ensures k == |elems| ==> CheckTypesSpec(elems, types).error == TypeError(types[k], None)
    decreases |types|
  {
    if elems == [] || !CheckType(elems[0], types[0]) {
      k := 0;
    } else {
      var j := CheckTypesFailure(elems[1..], types[1..]);
      k := j + 1;
      forall i | 0 <= i < k ensures CheckType(elems[i], types[i]) {
        if i > 0 { assert elems[i] == elems[1..][i - 1] && types[i] == types[1..][i - 1]; }
      }
    }
  }

  /** checkTypes: walks the signature and the stack from the top together. The
      stack is only read. */
  method CheckTypes(s: Stack, types: seq<TypeDesc>) returns (r: Outcome)
    requires s.Valid()
    ensures r == CheckTypesSpec(s.elems, types)
  {
    var k := 0;
    while k < |types| && k < |s.elems|
      invariant 0 <= k <= |types| && k <= |s.elems|
      invariant CheckTypesSpec(s.elems, types) == CheckTypesSpec(s.elems[k..], types[k..])
    {
      if !CheckType(s.elems[k], types[k]) {
        return Fail(TypeError(types[k], Some(s.elems[k])));
      }
      assert s.elems[k..][1..] == s.elems[k + 1..] && types[k..][1..] == types[k + 1..];
      k := k + 1;
    }
    if k < |types| {
      return Fail(TypeError(types[k], None));
    }
    r := Pass;
  }

  // ---------------------------------------------------------------------
  // Functions

  /** A stack value that keeps its limit: what a primitive, which can only use
      the Stack's own operations, may leave behind. */
  type BoundedStack = v: StackValue | Bounded(v) witness StackValue([], 0)

  /** A user-defined function: its signature and the body whose elements are
      pushed and executed one by one. */
  datatype DefinedFunction = DefinedFunction(signature: seq<TypeDesc>, body: seq<Element>)

  /** What a primitive's behaviour leaves: the stack, the registry, and the
      error it raised, if any (a primitive may have changed things before
      raising). */
  datatype PrimResult = PrimResult(stack: BoundedStack, defines: map<string, DefinedFunction>, error: Option<Error>)

  /** A primitive: its signature and its behaviour on (stack, defines). The
      catalog of primitives is not part of this model, so behaviours are
      parameters. */
  datatype PrimitiveFunction = PrimitiveFunction(
    signature: seq<TypeDesc>,
    behaviour: (StackValue, map<string, DefinedFunction>) -> PrimResult)

  /** The state execute works on. */
  datatype State = State(stack: StackValue, defines: map<string, DefinedFunction>, stopFlag: bool)

  /** The state after a call and how the call ended. A failed call keeps the
      changes made before the failure: nothing is rolled back. */
  datatype Run = Run(state: State, outcome: Outcome)

  // ---------------------------------------------------------------------
  // Execution, as functions

  /** One call of execute. It always returns with the stop flag clear: a set
      flag is consumed by the first call that sees it, and nothing sets it.
      `fuel` bounds the nesting of defined-function
      expansions, which the source leaves to the host's call stack; an
      expansion with no fuel left fails with OutOfFuel. The context (the
      enclosing commands) is handed to the callee extended by the command. */
  function Exec(prims: map<string, PrimitiveFunction>, st: State, context: seq<string>, fuel: nat): (r: Run)
    ensures !r.state.stopFlag
    decreases fuel, 0
  {
    if st.stopFlag then Run(st.(stopFlag := false), Fail(StopError))
    else if st.stack.elems == [] then Run(st, Fail(StackUnderflowError))
    else if !IsDirective(st.stack.elems[0]) then Run(st, Pass)
    else
      var name := st.stack.elems[0].name;
      var popped := st.(stack := StackValue(st.stack.elems[1..], st.stack.limit));
      if name in prims then CallPrim(prims[name], popped)
      else if name in st.defines then
        var f := st.defines[name];
        var check := CheckTypesSpec(popped.stack.elems, f.signature);
        if check.Fail? then Run(popped, check)
        else if fuel == 0 then Run(popped, Fail(OutOfFuel))
        else ExecBody(prims, popped, context + [name], f.body, fuel - 1)
      else Run(popped, Fail(SyntaxError(UNKNOWN_COMMAND_MESSAGE, name, 0)))
  }

  /** A call of a primitive: its signature is checked, then its behaviour
      runs on the stack and the registry. A failed check changes nothing, the
      stop flag is left alone, and the stack stays within its limit. */
  function CallPrim(p: PrimitiveFunction, st: State): (r: Run)
    ensures CheckTypesSpec(st.stack.elems, p.signature).Fail? ==> r.state == st && r.outcome.Fail?
    ensures r.state.stopFlag == st.stopFlag
    ensures Bounded(st.stack) ==> Bounded(r.state.stack)
  {
    var check := CheckTypesSpec(st.stack.elems, p.signature);
    if check.Fail? then Run(st, check)
    else
      var res := p.behaviour(st.stack, st.defines);
      Run(State(res.stack, res.defines, st.stopFlag),
          if res.error.Some? then Fail(res.error.value) else Pass)
  }

  /** The body of a defined function: each element is pushed (which may
      overflow) and then executed, in order; the first failure ends the body. */
  function ExecBody(prims: map<string, PrimitiveFunction>, st: State, context: seq<string>,
                    body: seq<Element>, fuel: nat): (r: Run)
    ensures !st.stopFlag ==> !r.state.stopFlag
    ensures body == [] ==> r == Run(st, Pass)
    decreases fuel, 1, |body|
  {
    if body == [] then Run(st, Pass)
    else match PushSpec(st.stack, body[0])
      case Err(e) => Run(st, Fail(e))
      case Ok(v) =>
        var sub := Exec(prims, st.(stack := v), context, fuel);
        if sub.outcome.Fail? then sub else ExecBody(prims, sub.state, context, body[1..], fuel)
  }

  // ---------------------------------------------------------------------
  // What execute promises

  /** A set stop flag is cleared and reported before anything else happens. */
  lemma StopChecked(prims: map<string, PrimitiveFunction>, st: State, context: seq<string>, fuel: nat)
    requires st.stopFlag
    ensures Exec(prims, st, context, fuel) == Run(st.(stopFlag := false), Fail(StopError))
  {
  }

  /** A stack whose top is not an unquoted command is left exactly as it is. */
  lemma DataIsInert(prims: map<string, PrimitiveFunction>, st: State, context: seq<string>, fuel: nat)
    requires !st.stopFlag && st.stack.elems != [] && !IsDirective(st.stack.elems[0])
    ensures Exec(prims, st, context, fuel) == Run(st, Pass)
  {
  }

  /** An unquoted command that is neither a primitive nor defined is removed
      and reported as a syntax error carrying its name. */
  lemma UnknownCommand(prims: map<string, PrimitiveFunction>, st: State, context: seq<string>, fuel: nat)
    requires !st.stopFlag && st.stack.elems != [] && IsDirective(st.stack.elems[0])
    requires st.stack.elems[0].name !in prims && st.stack.elems[0].name !in st.defines
    ensures Exec(prims, st, context, fuel).outcome == Fail(SyntaxError(UNKNOWN_COMMAND_MESSAGE, st.stack.elems[0].name, 0))
    ensures Exec(prims, st, context, fuel).state.stack.elems == st.stack.elems[1..]
    ensures Exec(prims, st, context, fuel).state.defines == st.defines
  {
  }

  /** A failed signature check, for a primitive or a defined function, only
      removes the command: the arguments, the registry and the flag are as
      before, so a failed type check is atomic. */
  lemma TypeCheckAtomic(prims: map<string, PrimitiveFunction>, st: State, context: seq<string>, fuel: nat)
    requires !st.stopFlag && st.stack.elems != [] && IsDirective(st.stack.elems[0])
    requires var name := st.stack.elems[0].name;
      (name in prims && CheckTypesSpec(st.stack.elems[1..], prims[name].signature).Fail?)
      || (name !in prims && name in st.defines && CheckTypesSpec(st.stack.elems[1..], st.defines[name].signature).Fail?)
    ensures Exec(prims, st, context, fuel).outcome.Fail? && Exec(prims, st, context, fuel).outcome.error.TypeError?
    ensures Exec(prims, st, context, fuel).state == st.(stack := StackValue(st.stack.elems[1..], st.stack.limit))
  {
    var name := st.stack.elems[0].name;
    if name in prims {
      var k := CheckTypesFailure(st.stack.elems[1..], prims[name].signature);
    } else {
      var k := CheckTypesFailure(st.stack.elems[1..], st.defines[name].signature);
    }
  }

  /** Primitives come first: a name that is a primitive never expands a
      definition, so neither the fuel nor the context matters, and whatever is
      registered under the same name has no say. */
  lemma PrimitiveFirst(prims: map<string, PrimitiveFunction>, st: State, context: seq<string>,
                       fuel: nat, other: DefinedFunction)
    requires !st.stopFlag && st.stack.elems != [] && IsDirective(st.stack.elems[0])
    requires st.stack.elems[0].name in prims && st.stack.elems[0].name in st.defines
    ensures Exec(prims, st, context, fuel) == Exec(prims, st, [], 0)
    ensures var name := st.stack.elems[0].name;
      CheckTypesSpec(st.stack.elems[1..], prims[name].signature).Fail? ==>
        Exec(prims, st, context, fuel).outcome
          == Exec(prims, st.(defines := st.defines[name := other]), context, fuel).outcome
  {
  }

  /** Every state reached keeps size <= limit. */
  lemma {:induction false} ExecKeepsBound(prims: map<string, PrimitiveFunction>, st: State, context: seq<string>, fuel: nat)
    requires Bounded(st.stack)
    ensures Bounded(Exec(prims, st, context, fuel).state.stack)
    decreases fuel, 0
  {
    if !st.stopFlag && st.stack.elems != [] && IsDirective(st.stack.elems[0]) {
      var name := st.stack.elems[0].name;
      var popped := st.(stack := StackValue(st.stack.elems[1..], st.stack.limit));
      if name !in prims && name in st.defines && fuel > 0
        && CheckTypesSpec(popped.stack.elems, st.defines[name].signature).Pass? {
        ExecBodyKeepsBound(prims, popped, context + [name], st.defines[name].body, fuel - 1);
      }
    }
  }

  lemma {:induction false} ExecBodyKeepsBound(prims: map<string, PrimitiveFunction>, st: State, context: seq<string>,
                                               body: seq<Element>, fuel: nat)
    requires Bounded(st.stack)
    ensures Bounded(ExecBody(prims, st, context, body, fuel).state.stack)
    decreases fuel, 1, |body|
  {
    if body != [] && PushSpec(st.stack, body[0]).Ok? {
      var v := PushSpec(st.stack, body[0]).value;
      ExecKeepsBound(prims, st.(stack := v), context, fuel);
      var sub := Exec(prims, st.(stack := v), context, fuel);
      if sub.outcome.Pass? {
        ExecBodyKeepsBound(prims, sub.state, context, body[1..], fuel);
      }
    }
  }

  /** Running out of fuel is the only effect of the fuel bound: a call that does
      not run out gives the same result with more fuel. */
  lemma {:induction false} ExecFuelMonotone(prims: map<string, PrimitiveFunction>, st: State, context: seq<string>, fuel: nat)
    requires Exec(prims, st, context, fuel).outcome != Fail(OutOfFuel)
    ensures Exec(prims, st, context, fuel + 1) == Exec(prims, st, context, fuel)
    decreases fuel, 0
  {
    if !st.stopFlag && st.stack.elems != [] && IsDirective(st.stack.elems[0]) {
      var name := st.stack.elems[0].name;
      var popped := st.(stack := StackValue(st.stack.elems[1..], st.stack.limit));
      if name !in prims && name in st.defines && fuel > 0
        && CheckTypesSpec(popped.stack.elems, st.defines[name].signature).Pass? {
        ExecBodyFuelMonotone(prims, popped, context + [name], st.defines[name].body, fuel - 1);
      }
    }
  }

  lemma {:induction false} ExecBodyFuelMonotone(prims: map<string, PrimitiveFunction>, st: State, context: seq<string>,
                                                 body: seq<Element>, fuel: nat)
    requires ExecBody(prims, st, context, body, fuel).outcome != Fail(OutOfFuel)
    ensures ExecBody(prims, st, context, body, fuel + 1) == ExecBody(prims, st, context, body, fuel)
    decreases fuel, 1, |body|
  {
    if body != [] && PushSpec(st.stack, body[0]).Ok? {
      var v := PushSpec(st.stack, body[0]).value;
      var sub := Exec(prims, st.(stack := v), context, fuel);
      ExecFuelMonotone(prims, st.(stack := v), context, fuel);
      if sub.outcome.Pass? {
        ExecBodyFuelMonotone(prims, sub.state, context, body[1..], fuel);
      }
    }
  }

  /** A body of data only (no unquoted commands) that fits under the limit is
      pushed element by element, so the last body element ends up on top. */
  lemma {:induction false} DataBodyPushes(prims: map<string, PrimitiveFunction>, st: State, context: seq<string>,
                                          body: seq<Element>, fuel: nat)
    requires !st.stopFlag
    requires forall k :: 0 <= k < |body| ==> !IsDirective(body[k])
    requires |st.stack.elems| + |body| <= st.stack.limit
    ensures ExecBody(prims, st, context, body, fuel)
      == Run(st.(stack := StackValue(Reversed(body) + st.stack.elems, st.stack.limit)), Pass)
    decreases |body|
  {
    if body != [] {
      var v := PushSpec(st.stack, body[0]).value;
      assert Exec(prims, st.(stack := v), context, fuel) == Run(st.(stack := v), Pass);
      DataBodyPushes(prims, st.(stack := v), context, body[1..], fuel);
      calc {
        Reversed(body[1..]) + v.elems;
        Reversed(body[1..]) + ([body[0]] + st.stack.elems);
        (Reversed(body[1..]) + [body[0]]) + st.stack.elems;
        Reversed(body) + st.stack.elems;
      }
    }
  }

  /** A full stack stops a body at its first push, with StackOverflowError. */
  lemma FullStackOverflows(prims: map<string, PrimitiveFunction>, st: State, context: seq<string>,
                           body: seq<Element>, fuel: nat)
    requires body != [] && |st.stack.elems| >= st.stack.limit
    ensures ExecBody(prims, st, context, body, fuel) == Run(st, Fail(StackOverflowError(st.stack.limit)))
  {
  }

  /** Primitives that leave the registry alone. */
  ghost predicate PrimitivesKeepDefines(prims: map<string, PrimitiveFunction>) {
    forall n, v, d :: n in prims ==> prims[n].behaviour(v, d).defines == d
  }

  /** Expanding defined functions never changes the registry: only a primitive
      can. */
  lemma {:induction false} ExecKeepsDefines(prims: map<string, PrimitiveFunction>, st: State, context: seq<string>, fuel: nat)
    requires PrimitivesKeepDefines(prims)
    ensures Exec(prims, st, context, fuel).state.defines == st.defines
    decreases fuel, 0
  {
    if !st.stopFlag && st.stack.elems != [] && IsDirective(st.stack.elems[0]) {
      var name := st.stack.elems[0].name;
      var popped := st.(stack := StackValue(st.stack.elems[1..], st.stack.limit));
      if name !in prims && name in st.defines && fuel > 0
        && CheckTypesSpec(popped.stack.elems, st.defines[name].signature).Pass? {
        ExecBodyKeepsDefines(prims, popped, context + [name], st.defines[name].body, fuel - 1);
      }
    }
  }

  lemma {:induction false} ExecBodyKeepsDefines(prims: map<string, PrimitiveFunction>, st: State, context: seq<string>,
                                                 body: seq<Element>, fuel: nat)
    requires PrimitivesKeepDefines(prims)
    ensures ExecBody(prims, st, context, body, fuel).state.defines == st.defines
    decreases fuel, 1, |body|
  {
    if body != [] && PushSpec(st.stack, body[0]).Ok? {
      var v := PushSpec(st.stack, body[0]).value;
      ExecKeepsDefines(prims, st.(stack := v), context, fuel);
      var sub := Exec(prims, st.(stack := v), context, fuel);
      if sub.outcome.Pass? {
        ExecBodyKeepsDefines(prims, sub.state, context, body[1..], fuel);
      }
    }
  }

  // ---------------------------------------------------------------------
  // The engine

  /** The engine: the registry of defined functions, the stop flag an
      interrupt sets, and the fixed table of primitives. */
  class Interpreter {
    var defines: map<string, DefinedFunction>
    var stopFlag: bool
    const primitives: map<string, PrimitiveFunction>

    constructor (prims: map<string, PrimitiveFunction>)
      ensures defines == map[] && !stopFlag && primitives == prims
    {
      defines, stopFlag, primitives := map[], false, prims;
    }

    function StateOf(s: Stack): State
      reads this, s
    {
      State(s.Value(), defines, stopFlag)
    }

    /** execute */
    method Execute(s: Stack, context: seq<string>, fuel: nat) returns (r: Outcome)
      requires s.Valid()
      modifies this, s
      ensures s.Valid()
      ensures Run(StateOf(s), r) == Exec(primitives, old(StateOf(s)), context, fuel)
      decreases fuel, 0
    {
      if stopFlag {
        stopFlag := false;
        return Fail(StopError);
      }
      var top := s.Top();
      if top.Err? {
        return Fail(top.error);
      }
      if !IsDirective(top.value) {
        return Pass;
      }
      var command := s.Pop();
      var name := top.value.name;
      if name in primitives {
        r := CallPrimitive(s, primitives[name]);
      } else if name in defines {
        var f := defines[name];
        var check := CheckTypes(s, f.signature);
        if check.Fail? {
          return check;
        }
        if fuel == 0 {
          return Fail(OutOfFuel);
        }
        r := ExecuteBody(s, context + [name], f.body, fuel - 1);
      } else {
        return Fail(SyntaxError(UNKNOWN_COMMAND_MESSAGE, name, 0));
      }
    }

    /** The primitive branch of execute: the signature check, then the
        behaviour, whose stack and registry replace the old ones. */
    method CallPrimitive(s: Stack, prim: PrimitiveFunction) returns (r: Outcome)
      requires s.Valid()
      modifies this, s
      ensures s.Valid()
      ensures Run(StateOf(s), r) == CallPrim(prim, old(StateOf(s)))
    {
      var check := CheckTypes(s, prim.signature);
      if check.Fail? {
        return check;
      }
      var res := prim.behaviour(s.Value(), defines);
      s.elems, s.dataSize, s.limit := res.stack.elems, |res.stack.elems|, res.stack.limit;
      defines := res.defines;
      if res.error.Some? {
        return Fail(res.error.value);
      }
      return Pass;
    }

    /** The loop of execute over a defined function's body: each element is
        pushed (a clone of it, in the source) and executed, and the first
        failure ends the loop. */
    method ExecuteBody(s: Stack, context: seq<string>, body: seq<Element>, fuel: nat) returns (r: Outcome)
      requires s.Valid()
      modifies this, s
      ensures s.Valid()
      ensures Run(StateOf(s), r) == ExecBody(primitives, old(StateOf(s)), context, body, fuel)
      decreases fuel, 1
    {
      ghost var start := StateOf(s);
      var k := 0;
      while k < |body|
        invariant 0 <= k <= |body| && s.Valid()
        invariant ExecBody(primitives, start, context, body, fuel)
          == ExecBody(primitives, StateOf(s), context, body[k..], fuel)
      {
        assert body[k..][1..] == body[k + 1..];
        var pushed := s.Push(body[k]);
        if pushed.Fail? {
          return pushed;
        }
        var sub := Execute(s, context, fuel);
        if sub.Fail? {
          return sub;
        }
        k := k + 1;
      }
      return Pass;
    }
  }
}
