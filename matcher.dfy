/**
 * The matcher: `runSubcommand`, `runArg` and `runOption` walk the tokens
 * against the grammar, without loops or backtracking, and end in a
 * recommendation context or in no result.
 *
 * Termination: every call either consumes a token, or stays on the same
 * tokens while moving down the phase order
 *   RunArg with no args (3) > RunSubcommand (2) > RunArg with args (1) > RunOption (0).
 */
module Matcher {
  import opened FigTypes
  import opened Grammar
  import opened Catalog
  import opened Resolver

  /** How a matching pass ends. */
  datatype Outcome =
      /** `getSubcommandDrivenRecommendation(node, persistentOptions, partial, argsDepleted, argsUsed, accepted)` */
    | SubcommandDriven(node: Node, persistentOptions: seq<Opt>, partial: Option<Token>,
                       argsDepleted: bool, argsUsed: bool, accepted: seq<Token>)
      /** `getArgDrivenRecommendation(args, node, persistentOptions, partial, accepted, fromVariadic)` */
    | ArgDriven(args: seq<Arg>, node: Node, persistentOptions: seq<Opt>, partial: Option<Token>,
                accepted: seq<Token>, fromVariadic: bool)
      /** `undefined`: matching gave up */
    | NoResult
      /** the "option expected but no tokens found" error */
    | InvalidState
  {
    predicate IsContext() {
      SubcommandDriven? || ArgDriven?
    }
  }

  /** `args.every((a) => a.isOptional)` */
  function AllOptional(args: seq<Arg>): (r: bool)
    ensures r <==> forall a :: a in args ==> a.isOptional
    ensures args == [] ==> r
  {
    forall i :: 0 <= i < |args| ==> args[i].isOptional
  }

  /** A context's in-progress token, when it has one, is an incomplete token of the input. */
  predicate PartialFrom(r: Outcome, tokens: seq<Token>) {
    r.IsContext() && r.partial.Some? ==> r.partial.value in tokens && !r.partial.value.complete
  }

  /** `runSubcommand(tokens, node, cwd, persistentOptions, acceptedTokens, argsDepleted, argsUsed)` */
  function RunSubcommand(env: Env, tokens: seq<Token>, node: Node, persistentOptions: seq<Opt>,
                         accepted: seq<Token>, argsDepleted: bool, argsUsed: bool): (r: Outcome)
    ensures !r.InvalidState?
    ensures r.ArgDriven? ==> r.args != []
    ensures PartialFrom(r, tokens)
    decreases |tokens|, 2
  {
    if tokens == [] then
      SubcommandDriven(node, persistentOptions, None, argsDepleted, argsUsed, accepted)
    else if !tokens[0].complete then
      SubcommandDriven(node, persistentOptions, Some(tokens[0]), argsDepleted, argsUsed, accepted)
    else
      var token := tokens[0];
      var allOptions := persistentOptions + OwnOptions(node);
      if token.isOption then
        match GetOption(token, allOptions)
        case Some(option) => RunOption(env, tokens, option, node, persistentOptions, accepted)
        case None => NoResult
      else
        match Resolve(env, node, token.text)
        case Some(next) =>
          RunSubcommand(env, tokens[1..], next,
                        GetPersistentOptions(persistentOptions, OwnOptions(node)),
                        GetPersistentTokens(accepted + [token]), false, false)
        case None =>
          if ActiveArgsLength(node.args) <= 0 then NoResult
          else
            var args := GetArgs(node.args);
            if args != [] then RunArg(env, tokens, args, node, allOptions, accepted, false, false)
            else RunSubcommand(env, tokens[1..], node, persistentOptions, accepted + [token], false, false)
  }

  /** `runArg(tokens, args, node, cwd, persistentOptions, acceptedTokens, fromOption, fromVariadic)` */
  function RunArg(env: Env, tokens: seq<Token>, args: seq<Arg>, node: Node, persistentOptions: seq<Opt>,
                  accepted: seq<Token>, fromOption: bool, fromVariadic: bool): (r: Outcome)
    ensures !r.InvalidState?
    ensures r.ArgDriven? ==> r.args != []
    ensures PartialFrom(r, tokens)
    decreases |tokens|, if args == [] then 3 else 1
  {
    if args == [] then
      RunSubcommand(env, tokens, node, persistentOptions, accepted, true, !fromOption)
    else if tokens == [] then
      ArgDriven(args, node, persistentOptions, None, accepted, fromVariadic)
    else if !tokens[0].complete then
      ArgDriven(args, node, persistentOptions, Some(tokens[0]), accepted, fromVariadic)
    else
      var token := tokens[0];
      if AllOptional(args) && token.isOption then
        match GetOption(token, persistentOptions + OwnOptions(node))
        case Some(option) => RunOption(env, tokens, option, node, persistentOptions, accepted)
        case None => NoResult
      else if AllOptional(args) && Resolve(env, node, token.text).Some? then
        RunSubcommand(env, tokens[1..], Resolve(env, node, token.text).value, persistentOptions,
                      GetPersistentTokens(accepted + [token]), false, false)
      else
        // the token is taken positionally, also when every arg was optional
        var arg := args[0];
        if arg.isVariadic then
          RunArg(env, tokens[1..], args, node, persistentOptions, accepted + [token], fromOption, true)
        else if arg.isCommand then
          // a fresh grammar, keyed by the current token, with no inherited context
          match GetSubcommand(LoadRootSpec(env, tokens))
          case None => NoResult
          case Some(root) => RunSubcommand(env, tokens[1..], root, [], [], false, false)
        else
          RunArg(env, tokens[1..], args[1..], node, persistentOptions, accepted + [token], fromOption, false)
  }

  /** `runOption(tokens, option, node, cwd, persistentOptions, acceptedTokens)` */
  function RunOption(env: Env, tokens: seq<Token>, option: Opt, node: Node, persistentOptions: seq<Opt>,
                     accepted: seq<Token>): (r: Outcome)
    ensures r.InvalidState? <==> tokens == []
    ensures r.ArgDriven? ==> r.args != []
    ensures PartialFrom(r, tokens)
    decreases |tokens|, 0
  {
    if tokens == [] then InvalidState
    else
      var token := tokens[0];
      var isPersistent := GetOption(token, persistentOptions).Some?;
      if !option.args.NoArgs? then
        RunArg(env, tokens[1..], GetArgs(option.args), node, persistentOptions, accepted + [token], true, false)
      else
        RunSubcommand(env, tokens[1..], node, persistentOptions,
                      accepted + [token.(isPersistent := isPersistent)], false, false)
  }
}
