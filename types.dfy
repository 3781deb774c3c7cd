/**
 * The data the completion runtime works on: command-line tokens and the
 * Fig-style grammar (subcommands, options, positional args, deferred loaders).
 *
 * Grammar objects in the source are JavaScript objects whose fields may be
 * absent; merging a loaded fragment into a node (`{...node, ...fragment}`)
 * only overrides the fields the fragment actually has, so node fields are
 * presence-aware here (`Option`, or `NoArgs`/`NoLoad` for "absent").
 */
module FigTypes {

  datatype Option<T> = None | Some(value: T) {
    /** The value, or `default` when absent (the source's `x ?? default`). */
    function GetOr(default: T): T {
      if Some? then value else default
    }
  }

  /** One token produced by the command-line tokenizer. */
  datatype Token = Token(
    text: string,
    complete: bool,       // false only while the cursor is still inside it
    isOption: bool,
    isPersistent: bool,
    isPath: bool,
    isPathComplete: bool)

  /** A `name` field: one string or an array of aliases. */
  datatype Names = Single(name: string) | Multi(aliases: seq<string>)

  /** `Array.isArray(name) ? name.includes(text) : name === text` */
  predicate NamesInclude(names: Names, text: string) {
    match names
    case Single(n) => n == text
    case Multi(ns) => text in ns
  }

  /** The set of strings a `name` field stands for. */
  function Aliases(names: Names): (r: set<string>)
    ensures forall text :: text in r <==> NamesInclude(names, text)
  {
    match names
    case Single(n) => {n}
    case Multi(ns) => set n | n in ns
  }

  /** A positional argument slot. */
  datatype Arg = Arg(name: string, isVariadic: bool, isOptional: bool, isCommand: bool)

  /** An `args` field: absent, a single arg, or an array (possibly empty). */
  datatype ArgSpec = NoArgs | OneArg(arg: Arg) | ArgList(args: seq<Arg>)

  /** An option (flag), with its own argument slots. */
  datatype Opt = Opt(names: Names, args: ArgSpec, isPersistent: bool)

  /** A subcommand node of the grammar tree. */
  datatype Node = Node(
    name: Option<Names>,
    subcommands: Option<seq<Node>>,
    options: Option<seq<Opt>>,
    args: ArgSpec,
    loadSpec: LoadSpec)

  /**
   * The deferred part of a node: absent, an inline object, a string key into
   * the bundled grammar modules, or a function loader (named by `id`; what it
   * returns for a given token is `Env.run`).
   */
  datatype LoadSpec = NoLoad | Inline(fragment: Node) | Reference(key: string) | Generator(id: string)

  /**
   * The default export of a grammar module: a node, or a zero-argument
   * function producing one (`produces` is what the call returns).
   */
  datatype Spec = Direct(node: Node) | Thunk(produces: Node)

  /** A Fig "spec location" a function loader may return. */
  datatype SpecLocation = SpecLocation(isGlobal: bool, name: string)

  /** What a function loader returns. */
  datatype GenResult =
    | Fragment(node: Node)
    | Location(location: SpecLocation)
    | Locations(locations: seq<SpecLocation>)

  /** One entry of the route trie built from the bundled command list. */
  datatype Route = Leaf(path: string) | Dir(entries: map<string, Route>)

  /**
   * The collaborators the runtime consults: the route trie, the bundled
   * grammar modules by path (a path absent from `modules` imports as
   * `undefined`), and the function loaders' answers.
   */
  datatype Env = Env(
    specSet: map<string, Route>,
    modules: map<string, Spec>,
    run: (string, string) -> GenResult)

  /** `node.subcommands ?? []` */
  function Children(n: Node): seq<Node> {
    n.subcommands.GetOr([])
  }

  /** `node.options ?? []` */
  function OwnOptions(n: Node): seq<Opt> {
    n.options.GetOr([])
  }
}
