/**
 * The error-context stack of the implicit-time-column error module: a
 * fixed array of ten context strings with a depth counter, pushed and
 * popped in place, and the default-message choice of the generic error
 * report.
 *
 * `ContextStack` and its functions are the specification; the class
 * `ErrorContextStack` keeps the array and the counter and is proved
 * against them.
 */
module ImplicitTimeError {
  import opened PgTypes

  /** Capacity of the context stack. */
  const MaxErrorContextDepth: int := 10

  /** The stack as a value: the ten slots (NULL is `None`) and the depth. */
  datatype ContextStack = ContextStack(contexts: seq<Option<string>>, depth: int)

  /** Ten slots and a depth the push guard keeps in range. */
  predicate WellSized(s: ContextStack) {
    |s.contexts| == MaxErrorContextDepth && 0 <= s.depth <= MaxErrorContextDepth
  }

  /**
   * The stack's invariant: the slots below the depth hold a context and
   * every slot from the depth up is NULL.
   */
  predicate StackInv(s: ContextStack) {
    WellSized(s) &&
    forall i | 0 <= i < MaxErrorContextDepth :: s.contexts[i].Some? <==> i < s.depth
  }

  /** The static initialiser: every slot NULL, depth 0. */
  function EmptyStack(): (s: ContextStack)
    ensures StackInv(s) && s.depth == 0
  {
    ContextStack(seq(MaxErrorContextDepth, _ => None), 0)
  }

  /**
   * `implicit_time_error_context_push`: a full stack only warns; a NULL
   * context is ignored; otherwise a copy goes into the slot at the depth
   * and the depth grows by one.
   */
  function PushContext(s: ContextStack, ctx: Option<string>): (t: ContextStack)
    requires WellSized(s)
    ensures WellSized(t)
    ensures StackInv(s) ==> StackInv(t)
    ensures t.depth == if s.depth < MaxErrorContextDepth && ctx.Some? then s.depth + 1 else s.depth
  {
    if s.depth >= MaxErrorContextDepth then s
    else if ctx.None? then s
    else ContextStack(s.contexts[s.depth := ctx], s.depth + 1)
  }

  /** Whether a push warns of overflow. */
  predicate PushOverflows(s: ContextStack) {
    s.depth >= MaxErrorContextDepth
  }

  /**
   * `implicit_time_error_context_pop`: nothing on an empty stack;
   * otherwise the depth drops by one and the slot it now names is cleared.
   */
  function PopContext(s: ContextStack): (t: ContextStack)
    requires WellSized(s)
    ensures WellSized(t)
    ensures StackInv(s) ==> StackInv(t)
    ensures t.depth == if s.depth > 0 then s.depth - 1 else 0
  {
    if s.depth > 0 then
      var d := s.depth - 1;
      if s.contexts[d].Some? then ContextStack(s.contexts[d := None], d)
      else ContextStack(s.contexts, d)
    else s
  }

  /** A push onto a full stack changes nothing. */
  lemma PushFullIsNoOp(s: ContextStack, ctx: Option<string>)
    requires WellSized(s) && PushOverflows(s)
    ensures PushContext(s, ctx) == s
  {
  }

  /** A push of NULL changes nothing. */
  lemma PushNullIsNoOp(s: ContextStack)
    requires WellSized(s)
    ensures PushContext(s, None) == s
  {
  }

  /**
   * A push of a context onto a stack with room stores it at the old depth
   * and leaves every other slot as it was.
   */
  lemma PushStoresContext(s: ContextStack, ctx: string)
    requires WellSized(s) && !PushOverflows(s)
    ensures PushContext(s, Some(ctx)).depth == s.depth + 1
    ensures PushContext(s, Some(ctx)).contexts[s.depth] == Some(ctx)
    ensures forall i | 0 <= i < MaxErrorContextDepth && i != s.depth ::
      PushContext(s, Some(ctx)).contexts[i] == s.contexts[i]
  {
  }

  /** A pop of an empty stack changes nothing. */
  lemma PopEmptyIsNoOp(s: ContextStack)
    requires WellSized(s) && s.depth == 0
    ensures PopContext(s) == s
  {
  }

  /**
   * A pop of a non-empty stack clears the top slot and keeps the slots
   * below it.
   */
  lemma PopClearsTop(s: ContextStack)
    requires WellSized(s) && s.depth > 0
    ensures PopContext(s) == ContextStack(s.contexts[s.depth - 1 := None], s.depth - 1)
  {
  }

  /** Popping right after a push of a context restores the stack. */
  lemma PopAfterPush(s: ContextStack, ctx: string)
    requires StackInv(s) && !PushOverflows(s)
    ensures PopContext(PushContext(s, Some(ctx))) == s
  {
    var t := PushContext(s, Some(ctx));
    assert !s.contexts[s.depth].Some?;
    assert t.contexts[s.depth := None] == s.contexts;
  }

  /** One call on the stack. */
  datatype StackOp = Push(ctx: Option<string>) | Pop

  /** The stack after a sequence of calls, from first to last. */
  function Run(s: ContextStack, ops: seq<StackOp>): (t: ContextStack)
    requires WellSized(s)
    ensures WellSized(t)
    decreases |ops|
  {
    if ops == [] then s
    else
      var next := match ops[0] case Push(ctx) => PushContext(s, ctx) case Pop => PopContext(s);
      Run(next, ops[1..])
  }

  /**
   * Any sequence of pushes and pops from a stack that satisfies the
   * invariant ends in one that does, with the depth within [0, 10].
   */
  lemma {:induction false} RunKeepsInvariant(s: ContextStack, ops: seq<StackOp>)
    requires StackInv(s)
    ensures StackInv(Run(s, ops))
    ensures 0 <= Run(s, ops).depth <= MaxErrorContextDepth
    decreases |ops|
  {
    if ops != [] {
      var next := match ops[0] case Push(ctx) => PushContext(s, ctx) case Pop => PopContext(s);
      RunKeepsInvariant(next, ops[1..]);
    }
  }

  /** The static `implicit_error_context_stack`, updated in place. */
  class ErrorContextStack {
    const contexts: array<Option<string>>
    var depth: int

    ghost function State(): ContextStack
      reads this, contexts
    {
      ContextStack(contexts[..], depth)
    }

    ghost predicate Valid()
      reads this, contexts
    {
      contexts.Length == MaxErrorContextDepth && StackInv(State())
    }

    /** The static initialiser `{ {NULL}, 0 }`. */
    constructor ()
      ensures Valid()
      ensures State() == EmptyStack()
      ensures fresh(contexts)
    {
      contexts := new Option<string>[MaxErrorContextDepth](_ => None);
      depth := 0;
      new;
      assert contexts[..] == EmptyStack().contexts;
    }

    /** Push a context; `overflow` is the WARNING a full stack gives. */
    method PushContextInPlace(ctx: Option<string>) returns (overflow: bool)
      requires Valid()
      modifies this, contexts
      ensures Valid()
      ensures State() == PushContext(old(State()), ctx)
      ensures overflow <==> PushOverflows(old(State()))
    {
      if depth >= MaxErrorContextDepth {
        return true;
      }
      overflow := false;
      if ctx.Some? {
        contexts[depth] := ctx;
        depth := depth + 1;
      }
    }

    /** Pop the innermost context, clearing its slot. */
    method PopContextInPlace()
      requires Valid()
      modifies this, contexts
      ensures Valid()
      ensures State() == PopContext(old(State()))
    {
      if depth > 0 {
        depth := depth - 1;
        if contexts[depth].Some? {
          contexts[depth] := None;
        }
      }
    }
  }

  /** The primary message used when the caller passes none. */
  const DefaultPrimaryMessage: string := "隐含时间列错误"

  /** The fields `implicit_time_ereport` hands to the error system. */
  datatype ErrorReport = ErrorReport(
    elevel: int,
    sqlstate: int,
    message: string,
    detail: Option<string>,
    hint: Option<string>,
    context: Option<string>)

  /**
   * `implicit_time_ereport`: the caller's primary message, or the default
   * when it is NULL; detail, hint and context are attached only when given.
   */
  function ImplicitTimeEreport(
    elevel: int, errorCode: int, primary: Option<string>,
    detail: Option<string>, hint: Option<string>, context: Option<string>): (r: ErrorReport)
    ensures primary.None? ==> r.message == DefaultPrimaryMessage
    ensures primary.Some? ==> r.message == primary.value
    ensures r.detail == detail && r.hint == hint && r.context == context
    ensures r.elevel == elevel && r.sqlstate == errorCode
  {
    ErrorReport(elevel, errorCode, if primary.Some? then primary.value else DefaultPrimaryMessage, detail, hint, context)
  }
}
