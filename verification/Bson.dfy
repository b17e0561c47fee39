/**
 The builder core behind the bsoncxx stream. Its bodies are not part of the repository, so a core is the
 log of the operations made on it; what a log builds is read off by a pushdown machine.
 */
module Bson {

  datatype Option<+T> = None | Some(value: T)

  /** Scalars; a double is its 64-bit pattern. */
  datatype Value =
    | Int32(i: int)
    | Double(bits: int)
    | Bool(b: bool)
    | Utf8(text: string)

  datatype Element =
    | Scalar(value: Value)
    | Document(fields: seq<Field>)
    | Array(items: seq<Element>)

  datatype Field = Field(key: string, value: Element)

  datatype CoreOp =
    | Key(key: string)
    | Append(value: Value)
    | OpenDocument
    | CloseDocument
    | OpenArray
    | CloseArray

  /** A container that is still open; a document may hold a key whose value is still to come. */
  datatype Container =
    | Doc(fields: seq<Field>, pending: Option<string>)
    | Arr(items: seq<Element>)

  /** The open containers, the outermost first. */
  type Stack = seq<Container>

  const EMPTY_DOCUMENT: Stack := [Doc([], None)]

  /** Puts a finished value into the container on top; a document needs a key for it. */
  function Put(stack: Stack, e: Element): Option<Stack> {
    if stack == [] then
      None
    else
      var rest, top := stack[..|stack| - 1], stack[|stack| - 1];
      match top
      case Doc(fields, Some(k)) => Some(rest + [Doc(fields + [Field(k, e)], None)])
      case Doc(_, None) => None
      case Arr(items) => Some(rest + [Arr(items + [e])])
  }

  /** Whether a value may come next. */
  predicate TakesValue(stack: Stack) {
    stack != [] && match stack[|stack| - 1]
                   case Doc(_, pending) => pending.Some?
                   case Arr(_) => true
  }

  /** One operation; None is a misuse. The outermost container cannot be closed. */
  function Step(stack: Stack, op: CoreOp): Option<Stack> {
    if stack == [] then
      None
    else
      var rest, top := stack[..|stack| - 1], stack[|stack| - 1];
      match op
      case Key(k) =>
        if top.Doc? && top.pending.None? then Some(rest + [Doc(top.fields, Some(k))]) else None
      case Append(v) => Put(stack, Scalar(v))
      case OpenDocument => if TakesValue(stack) then Some(stack + [Doc([], None)]) else None
      case OpenArray => if TakesValue(stack) then Some(stack + [Arr([])]) else None
      case CloseDocument =>
        if top.Doc? && top.pending.None? then Put(rest, Document(top.fields)) else None
      case CloseArray =>
        if top.Arr? then Put(rest, Array(top.items)) else None
  }

  function Replay(stack: Stack, log: seq<CoreOp>): Option<Stack>
    decreases |log|
  {
    if log == [] then
      Some(stack)
    else
      match Step(stack, log[0])
      case None => None
      case Some(next) => Replay(next, log[1..])
  }

  /** What finalize extracts: the fields, provided that nothing but the outermost document is open. */
  function Extract(log: seq<CoreOp>): Option<seq<Field>> {
    match Replay(EMPTY_DOCUMENT, log)
    case None => None
    case Some(stack) =>
      if |stack| == 1 && stack[0].Doc? && stack[0].pending.None? then Some(stack[0].fields) else None
  }

  lemma {:induction false} ReplayConcat(stack: Stack, a: seq<CoreOp>, b: seq<CoreOp>)
    ensures Replay(stack, a + b) ==
            match Replay(stack, a) { case None => None case Some(mid) => Replay(mid, b) }
    decreases |a|
  {
    if a == [] {
      assert a + b == b;
    } else {
      assert (a + b)[1..] == a[1..] + b;
      match Step(stack, a[0])
      case None =>
      case Some(next) => ReplayConcat(next, a[1..], b);
    }
  }

  /** builder::core, as far as its callers can see: every call is noted in order. */
  class Core {
    var log: seq<CoreOp>

    constructor ()
      ensures log == []
    {
      log := [];
    }

    method Note(op: CoreOp)
      modifies this
      ensures log == old(log) + [op]
    {
      log := log + [op];
    }
  }
}
