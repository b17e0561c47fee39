/**
 The stream contexts. Their template arguments hold the stack of open containers; here a context is a value
 and `<<` a step that makes one call on the core and yields the next context.
 */
module StreamContext {
  import opened Bson

  datatype Context =
    | Closed
    | KeyContext(base: Context)
    | ValueContext(base: Context)
    | ArrayContext(base: Context)

  /** What can stand on the right of `<<`. A string is a key or a value, as the context has it. */
  datatype Arg =
    | Text(text: string)
    | Plain(value: Value)
    | OpenDoc
    | CloseDoc
    | OpenArr
    | CloseArr
    | Finalize

  /** `document` is a key_context<closed_context>. */
  const DOCUMENT: Context := KeyContext(Closed)

  datatype Overload = IllTyped | Calls(op: CoreOp, next: Context) | Extracts

  /** The overload of `operator<<` that the context's type selects for the argument. */
  function Select(ctx: Context, arg: Arg): Overload {
    match ctx
    case Closed => IllTyped
    case KeyContext(base) => (
      match arg
      case Text(s) => Calls(Key(s), ValueContext(ctx))
      case CloseDoc => Calls(CloseDocument, base)
      case Finalize => if base == Closed then Extracts else IllTyped
      case _ => IllTyped
    )
    case ValueContext(base) => (
      match arg
      case Text(s) => Calls(Append(Utf8(s)), base)
      case Plain(v) => Calls(Append(v), base)
      case OpenDoc => Calls(OpenDocument, KeyContext(base))
      case OpenArr => Calls(OpenArray, ArrayContext(base))
      case _ => IllTyped
    )
    case ArrayContext(base) => (
      match arg
      case Text(s) => Calls(Append(Utf8(s)), ctx)
      case Plain(v) => Calls(Append(v), ctx)
      case OpenDoc => Calls(OpenDocument, KeyContext(ctx))
      case OpenArr => Calls(OpenArray, ArrayContext(ctx))
      case CloseArr => Calls(CloseArray, base)
      case Finalize => if base == Closed then Extracts else IllTyped
      case _ => IllTyped
    )
  }

  /** The operator itself: it makes its call on the shared core and wraps or unwraps the context. */
  method Shift(core: Core, ctx: Context, arg: Arg) returns (next: Context)
    requires Select(ctx, arg).Calls?
    modifies core
    ensures core.log == old(core.log) + [Select(ctx, arg).op] && next == Select(ctx, arg).next
  {
    match ctx {
      case KeyContext(base) =>
        match arg {
          case Text(s) => core.Note(Key(s)); next := ValueContext(ctx);
          case CloseDoc => core.Note(CloseDocument); next := base;
        }
      case ValueContext(base) =>
        match arg {
          case Text(s) => core.Note(Append(Utf8(s))); next := base;
          case Plain(v) => core.Note(Append(v)); next := base;
          case OpenDoc => core.Note(OpenDocument); next := KeyContext(base);
          case OpenArr => core.Note(OpenArray); next := ArrayContext(base);
        }
      case ArrayContext(base) =>
        match arg {
          case Text(s) => core.Note(Append(Utf8(s))); next := ctx;
          case Plain(v) => core.Note(Append(v)); next := ctx;
          case OpenDoc => core.Note(OpenDocument); next := KeyContext(ctx);
          case OpenArr => core.Note(OpenArray); next := ArrayContext(ctx);
          case CloseArr => core.Note(CloseArray); next := base;
        }
    }
  }

  /** A whole chain `ctx << args[0] << args[1] ...`: the calls it makes and the context it ends in. */
  datatype Chain = BadChain | GoodChain(log: seq<CoreOp>, end: Context)

  function RunChain(ctx: Context, args: seq<Arg>): Chain
    decreases |args|
  {
    if args == [] then
      GoodChain([], ctx)
    else
      match Select(ctx, args[0])
      case Calls(op, next) => (
        match RunChain(next, args[1..])
        case GoodChain(log, end) => GoodChain([op] + log, end)
        case BadChain => BadChain
      )
      case _ => BadChain
  }

  // ---------- the type stack is the container stack ----------

  datatype Kind = InDocument | InArray

  /** The containers that the context's type says are open. */
  function Shape(ctx: Context): seq<Kind> {
    match ctx
    case Closed => []
    case KeyContext(base) => Shape(base) + [InDocument]
    case ValueContext(base) => Shape(base)
    case ArrayContext(base) => Shape(base) + [InArray]
  }

  function KindOf(c: Container): Kind {
    if c.Doc? then InDocument else InArray
  }

  /**
   The types that a chain from `document` goes through: a value is always expected for a key of an
   enclosing document, and only the outermost container has no context around it.
   */
  predicate Sound(ctx: Context) {
    match ctx
    case Closed => false
    case KeyContext(base) => base == Closed || (Sound(base) && !base.ValueContext?)
    case ValueContext(base) => base.KeyContext? && Sound(base)
    case ArrayContext(base) => base == Closed || (Sound(base) && !base.ValueContext?)
  }

  /**
   The core is where the type says it is: the same containers are open, every enclosing document waits for
   the value of a key, and the innermost one has a key exactly in a value context.
   */
  ghost predicate InStep(ctx: Context, stack: Stack) {
    && |stack| == |Shape(ctx)| > 0
    && (forall i | 0 <= i < |stack| :: KindOf(stack[i]) == Shape(ctx)[i])
    && (forall i | 0 <= i < |stack| - 1 :: stack[i].Doc? ==> stack[i].pending.Some?)
    && match ctx
       case KeyContext(_) => stack[|stack| - 1].Doc? && stack[|stack| - 1].pending.None?
       case ValueContext(_) => stack[|stack| - 1].Doc? && stack[|stack| - 1].pending.Some?
       case ArrayContext(_) => stack[|stack| - 1].Arr?
       case Closed => false
  }

  /** The calls that an argument could stand for. */
  function Meanings(arg: Arg): set<CoreOp> {
    match arg
    case Text(s) => {Key(s), Append(Utf8(s))}
    case Plain(v) => {Append(v)}
    case OpenDoc => {OpenDocument}
    case CloseDoc => {CloseDocument}
    case OpenArr => {OpenArray}
    case CloseArr => {CloseArray}
    case Finalize => {}
  }

  /** A well-typed `<<` that does not leave the outermost container is a legal call, and stays in step. */
  lemma {:induction false} TypedStepIsLegal(ctx: Context, stack: Stack, arg: Arg)
    requires Sound(ctx) && InStep(ctx, stack)
    requires Select(ctx, arg).Calls? && Select(ctx, arg).next != Closed
    ensures var c := Select(ctx, arg);
      && c.op in Meanings(arg)
      && Sound(c.next)
      && Step(stack, c.op).Some? && InStep(c.next, Step(stack, c.op).value)
  {
    if arg.CloseDoc? || arg.CloseArr? {
      CloseIsLegal(ctx, stack, arg);
    }
  }

  lemma {:induction false} CloseIsLegal(ctx: Context, stack: Stack, arg: Arg)
    requires Sound(ctx) && InStep(ctx, stack) && (arg.CloseDoc? || arg.CloseArr?)
    requires Select(ctx, arg).Calls? && Select(ctx, arg).next != Closed
    ensures var c := Select(ctx, arg);
      && Sound(c.next)
      && Step(stack, c.op).Some? && InStep(c.next, Step(stack, c.op).value)
  {
    ShapeNotEmpty(ctx.base);
    var rest := stack[..|stack| - 1];
    assert KindOf(rest[|rest| - 1]) == Shape(ctx.base)[|rest| - 1];
  }

  lemma {:induction false} ShapeNotEmpty(ctx: Context)
    requires Sound(ctx)
    ensures Shape(ctx) != []
    ensures ctx.KeyContext? ==> Shape(ctx)[|Shape(ctx)| - 1] == InDocument
    ensures ctx.ArrayContext? ==> Shape(ctx)[|Shape(ctx)| - 1] == InArray
  {
    if ctx.ValueContext? {
      ShapeNotEmpty(ctx.base);
    }
  }

  /**
   The types admit exactly the calls that the core can carry out: an argument has a well-typed `<<` that does
   not end in closed_context if and only if one of the calls it could stand for is legal.
   */
  lemma {:induction false} TypedIffLegal(ctx: Context, stack: Stack, arg: Arg)
    requires Sound(ctx) && InStep(ctx, stack)
    ensures (Select(ctx, arg).Calls? && Select(ctx, arg).next != Closed)
       <==> (exists op :: op in Meanings(arg) && Step(stack, op).Some?)
  {
    if Select(ctx, arg).Calls? && Select(ctx, arg).next != Closed {
      TypedStepIsLegal(ctx, stack, arg);
    } else {
      assert ctx.base == Closed ==> stack[..|stack| - 1] == [];
      forall op | op in Meanings(arg)
        ensures Step(stack, op).None?
      {
      }
    }
  }

  /**
   Nor do the types keep the outermost container from being closed: with no other open and no key waiting, its closing
   has an overload, which the core cannot carry out.
   */
  lemma {:induction false} OutermostMayBeClosed(ctx: Context, stack: Stack, arg: Arg)
    requires Sound(ctx) && InStep(ctx, stack)
    ensures (Select(ctx, arg).Calls? && Select(ctx, arg).next == Closed)
       <==> |stack| == 1 && (if stack[0].Doc? then arg.CloseDoc? && stack[0].pending.None? else arg.CloseArr?)
    ensures Select(ctx, arg).Calls? && Select(ctx, arg).next == Closed ==>
              Select(ctx, arg).op in Meanings(arg) && Step(stack, Select(ctx, arg).op).None?
  {
    match ctx
    case KeyContext(base) => if base != Closed { ShapeNotEmpty(base); } else { assert stack[..|stack| - 1] == []; }
    case ArrayContext(base) => if base != Closed { ShapeNotEmpty(base); } else { assert stack[..|stack| - 1] == []; }
    case ValueContext(base) => ShapeNotEmpty(base);
  }

  /** finalize has an overload exactly when nothing but the outermost container is open and no key waits. */
  lemma {:induction false} FinalizeIffComplete(ctx: Context, stack: Stack)
    requires Sound(ctx) && InStep(ctx, stack)
    ensures Select(ctx, Finalize).Extracts?
       <==> |stack| == 1 && (stack[0].Doc? ==> stack[0].pending.None?)
  {
    match ctx
    case KeyContext(base) => if base != Closed { ShapeNotEmpty(base); }
    case ArrayContext(base) => if base != Closed { ShapeNotEmpty(base); }
    case ValueContext(base) =>
  }

  /** Whether a chain ever arrives at closed_context. */
  predicate ReachesClosed(ctx: Context, args: seq<Arg>)
    decreases |args|
  {
    ctx == Closed ||
    (args != [] && Select(ctx, args[0]).Calls? && ReachesClosed(Select(ctx, args[0]).next, args[1..]))
  }

  /** Every well-typed chain that does not reach closed_context builds legally and stays in step. */
  lemma {:induction false} TypedChainIsLegal(ctx: Context, stack: Stack, args: seq<Arg>)
    requires Sound(ctx) && InStep(ctx, stack)
    requires RunChain(ctx, args).GoodChain? && !ReachesClosed(ctx, args)
    ensures var c := RunChain(ctx, args);
      && Sound(c.end)
      && Replay(stack, c.log).Some? && InStep(c.end, Replay(stack, c.log).value)
    decreases |args|
  {
    if args == [] {
    } else {
      var c := Select(ctx, args[0]);
      TypedStepIsLegal(ctx, stack, args[0]);
      TypedChainIsLegal(c.next, Step(stack, c.op).value, args[1..]);
      assert ([c.op] + RunChain(c.next, args[1..]).log)[1..] == RunChain(c.next, args[1..]).log;
    }
  }

  /** From a fresh document: if the chain may be finalized where it ends, the log extracts to a document. */
  lemma {:induction false} TypedDocumentExtracts(args: seq<Arg>)
    requires RunChain(DOCUMENT, args).GoodChain? && !ReachesClosed(DOCUMENT, args)
    ensures Select(RunChain(DOCUMENT, args).end, Finalize).Extracts? <==> Extract(RunChain(DOCUMENT, args).log).Some?
  {
    assert Shape(DOCUMENT) == [InDocument];
    TypedChainIsLegal(DOCUMENT, EMPTY_DOCUMENT, args);
    var c := RunChain(DOCUMENT, args);
    FinalizeIffComplete(c.end, Replay(EMPTY_DOCUMENT, c.log).value);
    OutermostStays(EMPTY_DOCUMENT, c.log);
  }

  lemma {:induction false} StepKeepsOutermost(stack: Stack, op: CoreOp)
    requires stack != [] && stack[0].Doc? && Step(stack, op).Some?
    ensures Step(stack, op).value != [] && Step(stack, op).value[0].Doc?
  {
  }

  /** No operation turns the outermost document into an array. */
  lemma {:induction false} OutermostStays(stack: Stack, log: seq<CoreOp>)
    requires stack != [] && stack[0].Doc? && Replay(stack, log).Some?
    ensures Replay(stack, log).value != [] && Replay(stack, log).value[0].Doc?
    decreases |log|
  {
    if log == [] {
    } else {
      StepKeepsOutermost(stack, log[0]);
      hide Step;
      OutermostStays(Step(stack, log[0]).value, log[1..]);
    }
  }
}
