/** Classification of the command line's positional arguments into the
    operation the projector performs. */
module Config {
  import opened Optional

  /** The four operations: print everything, print one key, add a binding,
      remove a binding. */
  datatype Operation =
    | Print(query: Option<string>)
    | Add(key: string, value: string)
    | Remove(key: string)

  /** The three rejections; `got` is the argument count the message reports:
      the arguments after `add`/`rm`, or all of them for a print. */
  datatype ArityError =
    | AddArity(got: nat)
    | RemoveArity(got: nat)
    | PrintArity(got: nat)

  /** The two words that select an operation other than printing. */
  predicate IsCommand(word: string) {
    word == "add" || word == "rm"
  }

  /** `Operation::try_from(Vec<String>)`. */
  function ParseOperation(args: seq<string>): (r: Result<Operation, ArityError>)
    ensures r.Ok? && r.value.Add? ==> args == ["add", r.value.key, r.value.value]
    ensures r.Ok? && r.value.Remove? ==> args == ["rm", r.value.key]
    ensures r.Ok? && r.value.Print? && r.value.query.None? ==> args == []
    ensures r.Ok? && r.value.Print? && r.value.query.Some? ==>
      args == [r.value.query.value] && !IsCommand(r.value.query.value)
    ensures r.Err? ==> |args| >= 1
    ensures r.Err? && r.error.AddArity? ==> args[0] == "add" && |args| != 3 && r.error.got == |args| - 1
    ensures r.Err? && r.error.RemoveArity? ==> args[0] == "rm" && |args| != 2 && r.error.got == |args| - 1
    ensures r.Err? && r.error.PrintArity? ==> !IsCommand(args[0]) && |args| >= 2 && r.error.got == |args|
  {
    if |args| == 0 then
      Ok(Print(None))
    else if args[0] == "add" then
      if |args| != 3 then Err(AddArity(|args| - 1)) else Ok(Add(args[1], args[2]))
    else if args[0] == "rm" then
      if |args| != 2 then Err(RemoveArity(|args| - 1)) else Ok(Remove(args[1]))
    else if |args| > 1 then
      Err(PrintArity(|args|))
    else
      Ok(Print(Some(args[0])))
  }

  /** The argument list that asks for `op`. */
  function Render(op: Operation): seq<string> {
    match op
    case Print(None) => []
    case Print(Some(k)) => [k]
    case Add(k, v) => ["add", k, v]
    case Remove(k) => ["rm", k]
  }

  /** Every operation except printing the keys `add` and `rm` has an
      argument list. */
  predicate Expressible(op: Operation) {
    !(op.Print? && op.query.Some? && IsCommand(op.query.value))
  }

  /** Round trip: the rendered arguments of an expressible operation parse
      back to it. */
  lemma ParseRender(op: Operation)
    requires Expressible(op)
    ensures ParseOperation(Render(op)) == Ok(op)
  {
  }

  /** Parsing is injective: an accepted argument list is the rendering of its
      operation, and that operation is expressible. */
  lemma RenderParse(args: seq<string>)
    requires ParseOperation(args).Ok?
    ensures Render(ParseOperation(args).value) == args
    ensures Expressible(ParseOperation(args).value)
  {
  }

  /** A lone `add` or `rm` is an arity error, never a print of that key; so
      no argument list prints the keys `add` or `rm`. */
  lemma CommandWordAloneIsError(word: string)
    requires IsCommand(word)
    ensures ParseOperation([word]).Err?
    ensures ParseOperation([word]).error.got == 0
    ensures forall args :: ParseOperation(args) != Ok(Print(Some(word)))
  {
  }

  /** Exactly which argument lists are rejected, and the count reported. */
  lemma ErrorCases(args: seq<string>)
    ensures ParseOperation(args).Err? <==>
      && |args| >= 1
      && (if args[0] == "add" then |args| != 3
          else if args[0] == "rm" then |args| != 2
          else |args| > 1)
    ensures ParseOperation(args).Err? ==>
      ParseOperation(args).error.got == if IsCommand(args[0]) then |args| - 1 else |args|
  {
  }

  /** The cases pinned by the command-line tests. */
  lemma ParseExamples()
    ensures ParseOperation([]) == Ok(Print(None))
    ensures ParseOperation(["foo"]) == Ok(Print(Some("foo")))
    ensures ParseOperation(["add", "foo", "bar"]) == Ok(Add("foo", "bar"))
    ensures ParseOperation(["rm", "foo"]) == Ok(Remove("foo"))
  {
  }
}
