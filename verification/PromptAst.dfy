/** The prompt compiler's syntax trees and what they mean as text. */
module PromptAst {
  import opened Wrappers

  /** A string, or a number or boolean together with how it is printed and whether it counts as true. */
  datatype LiteralValue = Text(text: string) | Scalar(shown: string, truthy: bool)
  {
    function Shown(): string {
      if Text? then text else shown
    }

    predicate Truthy() {
      if Text? then text != "" else truthy
    }
  }

  datatype Metadata = Metadata(startPos: int, endPos: int, tokens: Option<nat>, importance: Option<real>)
  {
    function Tokens(): nat {
      if tokens.Some? then tokens.value else 0
    }
  }

  datatype Operator = Plus | And | Or | Equals

  datatype TemplatePart = Chunk(text: string) | Hole(name: string)

  datatype Expr =
    | Literal(id: string, value: LiteralValue, compressible: bool, metadata: Metadata)
    | VariableRef(id: string, name: string)
    | Template(id: string, parts: seq<TemplatePart>)
    | FunctionCall(id: string, name: string, arguments: seq<Expr>)
    | BinaryOp(id: string, operator: Operator, left: Expr, right: Expr)

  datatype Statement =
    | Instruction(id: string, directive: string, subject: Expr, dependencies: seq<string>, metadata: Metadata)
    | Context(id: string, content: Expr, priority: real, required: bool, metadata: Metadata)
    | Constraint(id: string, kind: string, value: Expr, strict: bool, metadata: Metadata)
    | Other(id: string, kind: string, metadata: Metadata)  // output format, conditional, loop, variable

  /** What expressions refer to: variables, functions, and the operators other than '+'. */
  datatype Environment = Environment(
    vars: string -> string, calls: (string, seq<string>) -> string, operators: (Operator, string, string) -> string)

  /** The text of an expression, with '+' as concatenation. */
  function Eval(e: Expr, env: Environment): string {
    match e
    case Literal(_, value, _, _) => value.Shown()
    case VariableRef(_, name) => env.vars(name)
    case Template(_, parts) => EvalParts(parts, env)
    case FunctionCall(_, name, arguments) => env.calls(name, EvalAll(arguments, env))
    case BinaryOp(_, operator, left, right) =>
      if operator.Plus? then Eval(left, env) + Eval(right, env)
      else env.operators(operator, Eval(left, env), Eval(right, env))
  }

  function EvalAll(es: seq<Expr>, env: Environment): seq<string> {
    if es == [] then [] else [Eval(es[0], env)] + EvalAll(es[1..], env)
  }

  function EvalParts(parts: seq<TemplatePart>, env: Environment): string {
    if parts == [] then ""
    else (match parts[0] case Chunk(text) => text case Hole(name) => env.vars(name)) + EvalParts(parts[1..], env)
  }
}
