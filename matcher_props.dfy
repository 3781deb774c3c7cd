/**
 * What the matcher promises: one lemma per decision of `runSubcommand`,
 * `runArg` and `runOption`, and the properties of whole matching passes
 * (variadic args, arg-less nodes, inherited context, accepted history).
 */
module MatcherProperties {
  import opened FigTypes
  import opened Grammar
  import opened Catalog
  import opened Resolver
  import opened Matcher

  predicate IsPrefix<T(==)>(a: seq<T>, b: seq<T>) {
    |a| <= |b| && b[..|a|] == a
  }

  lemma PrefixTransitive<T>(a: seq<T>, b: seq<T>, c: seq<T>)
    requires IsPrefix(a, b) && IsPrefix(b, c)
    ensures IsPrefix(a, c)
  {
    assert c[..|a|] == c[..|b|][..|a|];
  }

  /** The texts of a token list. */
  function Texts(s: seq<Token>): set<string> {
    set t | t in s :: t.text
  }

  // ---- runSubcommand, one decision at a time ----

  /** No tokens, or an incomplete first token: a subcommand-driven context carrying that token. */
  lemma SubcommandTerminal(env: Env, tokens: seq<Token>, node: Node, persistentOptions: seq<Opt>,
                           accepted: seq<Token>, argsDepleted: bool, argsUsed: bool)
    requires tokens == [] || !tokens[0].complete
    ensures RunSubcommand(env, tokens, node, persistentOptions, accepted, argsDepleted, argsUsed)
            == SubcommandDriven(node, persistentOptions, if tokens == [] then None else Some(tokens[0]),
                                argsDepleted, argsUsed, accepted)
  {
  }

  /** A complete option token that neither an inherited nor an own option names ends matching. */
  lemma UnknownOptionHalts(env: Env, tokens: seq<Token>, node: Node, persistentOptions: seq<Opt>,
                           accepted: seq<Token>, argsDepleted: bool, argsUsed: bool)
    requires tokens != [] && tokens[0].complete && tokens[0].isOption
    requires forall o :: o in persistentOptions + OwnOptions(node) ==> !OptionNamed(o, tokens[0].text)
    ensures RunSubcommand(env, tokens, node, persistentOptions, accepted, argsDepleted, argsUsed) == NoResult
  {
  }

  /**
   * A token naming a child descends into the resolved child with the
   * inherited options grown by the node's new persistent options, only the
   * persistent tokens of the history, and both args flags reset.
   */
  lemma ChildDescent(env: Env, tokens: seq<Token>, node: Node, persistentOptions: seq<Opt>,
                     accepted: seq<Token>, argsDepleted: bool, argsUsed: bool)
    requires tokens != [] && tokens[0].complete && !tokens[0].isOption
    requires Resolve(env, node, tokens[0].text).Some?
    ensures var next := Resolve(env, node, tokens[0].text).value;
            var inherited := GetPersistentOptions(persistentOptions, OwnOptions(node));
            var kept := GetPersistentTokens(accepted + [tokens[0]]);
            && RunSubcommand(env, tokens, node, persistentOptions, accepted, argsDepleted, argsUsed)
               == RunSubcommand(env, tokens[1..], next, inherited, kept, false, false)
            && IsPrefix(persistentOptions, inherited)
            && (forall o :: o in inherited[|persistentOptions|..] ==> o in OwnOptions(node) && o.isPersistent)
            && (forall t :: t in kept <==> (t in accepted || t == tokens[0]) && t.isPersistent)
  {
  }

  /** A word that is neither an option nor a child, at a node declaring `args: []`, ends matching. */
  lemma UnconsumableWordHalts(env: Env, tokens: seq<Token>, node: Node, persistentOptions: seq<Opt>,
                              accepted: seq<Token>, argsDepleted: bool, argsUsed: bool)
    requires tokens != [] && tokens[0].complete && !tokens[0].isOption
    requires Resolve(env, node, tokens[0].text).None?
    requires node.args == ArgList([])
    ensures RunSubcommand(env, tokens, node, persistentOptions, accepted, argsDepleted, argsUsed) == NoResult
  {
  }

  /**
   * Such a word at a node with args goes to `runArg`, which receives the
   * inherited AND the node's own options as its "persistent" list.
   */
  lemma WordGoesToArgs(env: Env, tokens: seq<Token>, node: Node, persistentOptions: seq<Opt>,
                       accepted: seq<Token>, argsDepleted: bool, argsUsed: bool)
    requires tokens != [] && tokens[0].complete && !tokens[0].isOption
    requires Resolve(env, node, tokens[0].text).None?
    requires node.args.OneArg? || (node.args.ArgList? && node.args.args != [])
    ensures RunSubcommand(env, tokens, node, persistentOptions, accepted, argsDepleted, argsUsed)
            == RunArg(env, tokens, GetArgs(node.args), node, persistentOptions + OwnOptions(node), accepted, false, false)
  {
  }

  /** Such a word at a node without an `args` field is skipped; matching goes on at the same node. */
  lemma WordSkippedWithoutArgs(env: Env, tokens: seq<Token>, node: Node, persistentOptions: seq<Opt>,
                               accepted: seq<Token>, argsDepleted: bool, argsUsed: bool)
    requires tokens != [] && tokens[0].complete && !tokens[0].isOption
    requires Resolve(env, node, tokens[0].text).None?
    requires node.args.NoArgs?
    ensures RunSubcommand(env, tokens, node, persistentOptions, accepted, argsDepleted, argsUsed)
            == RunSubcommand(env, tokens[1..], node, persistentOptions, accepted + [tokens[0]], false, false)
  {
  }

  /**
   * Hence a node without `args` swallows any run of plain unknown words:
   * they all join the history and the context stays at that node.
   */
  lemma {:induction false} UnknownWordsSkipped(env: Env, tokens: seq<Token>, node: Node, persistentOptions: seq<Opt>,
                                               accepted: seq<Token>, argsDepleted: bool, argsUsed: bool)
    requires node.args.NoArgs?
    requires forall i :: 0 <= i < |tokens| ==>
               tokens[i].complete && !tokens[i].isOption && Resolve(env, node, tokens[i].text).None?
    ensures RunSubcommand(env, tokens, node, persistentOptions, accepted, argsDepleted, argsUsed)
            == SubcommandDriven(node, persistentOptions, None, argsDepleted && tokens == [],
                                argsUsed && tokens == [], accepted + tokens)
    decreases |tokens|
  {
    if tokens == [] {
      assert accepted + tokens == accepted;
    } else {
      UnknownWordsSkipped(env, tokens[1..], node, persistentOptions, accepted + [tokens[0]], false, false);
      assert accepted + [tokens[0]] + tokens[1..] == accepted + tokens;
    }
  }

  // ---- runArg ----

  /** Out of args: back to the node with `argsDepleted` set, and `argsUsed` unless the args were an option's. */
  lemma ArgsExhausted(env: Env, tokens: seq<Token>, node: Node, persistentOptions: seq<Opt>,
                      accepted: seq<Token>, fromOption: bool, fromVariadic: bool)
    ensures RunArg(env, tokens, [], node, persistentOptions, accepted, fromOption, fromVariadic)
            == RunSubcommand(env, tokens, node, persistentOptions, accepted, true, !fromOption)
  {
  }

  /** No tokens, or an incomplete first token: an arg-driven context for the remaining args. */
  lemma ArgTerminal(env: Env, tokens: seq<Token>, args: seq<Arg>, node: Node, persistentOptions: seq<Opt>,
                    accepted: seq<Token>, fromOption: bool, fromVariadic: bool)
    requires args != []
    requires tokens == [] || !tokens[0].complete
    ensures RunArg(env, tokens, args, node, persistentOptions, accepted, fromOption, fromVariadic)
            == ArgDriven(args, node, persistentOptions, if tokens == [] then None else Some(tokens[0]),
                         accepted, fromVariadic)
  {
  }

  /**
   * When every remaining arg is optional, a word that is neither an option
   * nor a child is still taken positionally (it does not end matching).
   */
  lemma OptionalArgsTakeUnknownWords(env: Env, tokens: seq<Token>, args: seq<Arg>, node: Node,
                                     persistentOptions: seq<Opt>, accepted: seq<Token>,
                                     fromOption: bool, fromVariadic: bool)
    requires args != [] && AllOptional(args) && !args[0].isVariadic && !args[0].isCommand
    requires tokens != [] && tokens[0].complete && !tokens[0].isOption
    requires Resolve(env, node, tokens[0].text).None?
    ensures RunArg(env, tokens, args, node, persistentOptions, accepted, fromOption, fromVariadic)
            == RunArg(env, tokens[1..], args[1..], node, persistentOptions, accepted + [tokens[0]], fromOption, false)
  {
  }

  /** A variadic first arg takes the token and stays the active arg. */
  lemma VariadicStep(env: Env, tokens: seq<Token>, args: seq<Arg>, node: Node, persistentOptions: seq<Opt>,
                     accepted: seq<Token>, fromOption: bool, fromVariadic: bool)
    requires args != [] && args[0].isVariadic && !AllOptional(args)
    requires tokens != [] && tokens[0].complete
    ensures RunArg(env, tokens, args, node, persistentOptions, accepted, fromOption, fromVariadic)
            == RunArg(env, tokens[1..], args, node, persistentOptions, accepted + [tokens[0]], fromOption, true)
  {
  }

  /**
   * A required variadic arg takes every complete token, option-looking ones
   * included, and the context ends on it with `fromVariadic` set once it has
   * taken one.
   */
  lemma {:induction false} VariadicSwallows(env: Env, tokens: seq<Token>, args: seq<Arg>, node: Node,
                                            persistentOptions: seq<Opt>, accepted: seq<Token>,
                                            fromOption: bool, fromVariadic: bool)
    requires args != [] && args[0].isVariadic && !AllOptional(args)
    requires forall i :: 0 <= i < |tokens| - 1 ==> tokens[i].complete
    ensures tokens != [] && !tokens[|tokens| - 1].complete ==>
              RunArg(env, tokens, args, node, persistentOptions, accepted, fromOption, fromVariadic)
              == ArgDriven(args, node, persistentOptions, Some(tokens[|tokens| - 1]),
                           accepted + tokens[..|tokens| - 1], fromVariadic || |tokens| > 1)
    ensures tokens == [] || tokens[|tokens| - 1].complete ==>
              RunArg(env, tokens, args, node, persistentOptions, accepted, fromOption, fromVariadic)
              == ArgDriven(args, node, persistentOptions, None, accepted + tokens, fromVariadic || tokens != [])
    decreases |tokens|
  {
    if tokens == [] {
      assert accepted + tokens == accepted;
    } else if !tokens[0].complete {
      assert tokens[..|tokens| - 1] == [];
    } else {
      var rest := tokens[1..];
      VariadicSwallows(env, rest, args, node, persistentOptions, accepted + [tokens[0]], fromOption, true);
      assert accepted + [tokens[0]] + rest == accepted + tokens;
      if rest != [] {
        assert tokens[..|tokens| - 1] == [tokens[0]] + rest[..|rest| - 1];
        assert accepted + [tokens[0]] + rest[..|rest| - 1] == accepted + tokens[..|tokens| - 1];
      }
    }
  }

  /** A plain (non-variadic, non-command) first arg takes the token and the next arg becomes active. */
  lemma ScalarStep(env: Env, tokens: seq<Token>, args: seq<Arg>, node: Node, persistentOptions: seq<Opt>,
                   accepted: seq<Token>, fromOption: bool, fromVariadic: bool)
    requires args != [] && !args[0].isVariadic && !args[0].isCommand && !AllOptional(args)
    requires tokens != [] && tokens[0].complete
    ensures RunArg(env, tokens, args, node, persistentOptions, accepted, fromOption, fromVariadic)
            == RunArg(env, tokens[1..], args[1..], node, persistentOptions, accepted + [tokens[0]], fromOption, false)
  {
  }

  /**
   * A command-valued arg restarts matching on the grammar loaded for the
   * current token, with no inherited options and no history.
   */
  lemma CommandArgRestarts(env: Env, tokens: seq<Token>, args: seq<Arg>, node: Node, persistentOptions: seq<Opt>,
                           accepted: seq<Token>, fromOption: bool, fromVariadic: bool)
    requires args != [] && !args[0].isVariadic && args[0].isCommand && !AllOptional(args)
    requires tokens != [] && tokens[0].complete
    ensures RunArg(env, tokens, args, node, persistentOptions, accepted, fromOption, fromVariadic)
            == match GetSubcommand(ImportRoot(env, tokens[0].text))
               case None => NoResult
               case Some(root) => RunSubcommand(env, tokens[1..], root, [], [], false, false)
  {
  }

  // ---- runOption ----

  /** An option with an `args` field (even `[]`) hands the following tokens to its args. */
  lemma OptionTakesArgs(env: Env, tokens: seq<Token>, option: Opt, node: Node, persistentOptions: seq<Opt>,
                        accepted: seq<Token>)
    requires tokens != [] && !option.args.NoArgs?
    ensures RunOption(env, tokens, option, node, persistentOptions, accepted)
            == RunArg(env, tokens[1..], GetArgs(option.args), node, persistentOptions, accepted + [tokens[0]], true, false)
  {
  }

  /** With `args: []` that means straight back to the node, args depleted but not used. */
  lemma EmptyOptionArgsResume(env: Env, tokens: seq<Token>, option: Opt, node: Node, persistentOptions: seq<Opt>,
                              accepted: seq<Token>)
    requires tokens != [] && option.args == ArgList([])
    ensures RunOption(env, tokens, option, node, persistentOptions, accepted)
            == RunSubcommand(env, tokens[1..], node, persistentOptions, accepted + [tokens[0]], true, false)
  {
  }

  /**
   * A flag resumes at the node; its token joins the history marked
   * persistent exactly when an inherited option carries its text.
   */
  lemma FlagResumes(env: Env, tokens: seq<Token>, option: Opt, node: Node, persistentOptions: seq<Opt>,
                    accepted: seq<Token>)
    requires tokens != [] && option.args.NoArgs?
    ensures var inherited := exists i :: 0 <= i < |persistentOptions| && OptionNamed(persistentOptions[i], tokens[0].text);
            RunOption(env, tokens, option, node, persistentOptions, accepted)
            == RunSubcommand(env, tokens[1..], node, persistentOptions,
                             accepted + [tokens[0].(isPersistent := inherited)], false, false)
  {
  }

  // ---- whole passes ----

  /**
   * Every token in a context's history was an input token or already in the
   * history (up to its persistence flag): matching never invents tokens.
   */
  lemma {:induction false} SubcommandHistoryFromInput(env: Env, tokens: seq<Token>, node: Node,
                                                      persistentOptions: seq<Opt>, accepted: seq<Token>,
                                                      argsDepleted: bool, argsUsed: bool)
    ensures var r := RunSubcommand(env, tokens, node, persistentOptions, accepted, argsDepleted, argsUsed);
            r.IsContext() ==> Texts(r.accepted) <= Texts(accepted) + Texts(tokens)
    decreases |tokens|, 2
  {
    if tokens != [] && tokens[0].complete {
      var token := tokens[0];
      assert Texts(tokens[1..]) <= Texts(tokens);
      assert Texts(accepted + [token]) == Texts(accepted) + {token.text};
      if token.isOption {
        match GetOption(token, persistentOptions + OwnOptions(node))
        case Some(option) => OptionHistoryFromInput(env, tokens, option, node, persistentOptions, accepted);
        case None =>
      } else {
        match Resolve(env, node, token.text)
        case Some(next) =>
          var kept := GetPersistentTokens(accepted + [token]);
          assert Texts(kept) <= Texts(accepted + [token]);
          SubcommandHistoryFromInput(env, tokens[1..], next,
                                     GetPersistentOptions(persistentOptions, OwnOptions(node)), kept, false, false);
        case None =>
          if ActiveArgsLength(node.args) > 0 {
            var args := GetArgs(node.args);
            if args != [] {
              ArgHistoryFromInput(env, tokens, args, node, persistentOptions + OwnOptions(node), accepted, false, false);
            } else {
              SubcommandHistoryFromInput(env, tokens[1..], node, persistentOptions, accepted + [token], false, false);
            }
          }
      }
    }
  }

  lemma {:induction false} ArgHistoryFromInput(env: Env, tokens: seq<Token>, args: seq<Arg>, node: Node,
                                               persistentOptions: seq<Opt>, accepted: seq<Token>,
                                               fromOption: bool, fromVariadic: bool)
    ensures var r := RunArg(env, tokens, args, node, persistentOptions, accepted, fromOption, fromVariadic);
            r.IsContext() ==> Texts(r.accepted) <= Texts(accepted) + Texts(tokens)
    decreases |tokens|, if args == [] then 3 else 1
  {
    if args == [] {
      SubcommandHistoryFromInput(env, tokens, node, persistentOptions, accepted, true, !fromOption);
    } else if tokens != [] && tokens[0].complete {
      var token := tokens[0];
      assert Texts(tokens[1..]) <= Texts(tokens);
      assert Texts(accepted + [token]) == Texts(accepted) + {token.text};
      if AllOptional(args) && token.isOption {
        match GetOption(token, persistentOptions + OwnOptions(node))
        case Some(option) => OptionHistoryFromInput(env, tokens, option, node, persistentOptions, accepted);
        case None =>
      } else if AllOptional(args) && Resolve(env, node, token.text).Some? {
        var kept := GetPersistentTokens(accepted + [token]);
        assert Texts(kept) <= Texts(accepted + [token]);
        SubcommandHistoryFromInput(env, tokens[1..], Resolve(env, node, token.text).value,
                                   persistentOptions, kept, false, false);
      } else if args[0].isVariadic {
        ArgHistoryFromInput(env, tokens[1..], args, node, persistentOptions, accepted + [token], fromOption, true);
      } else if args[0].isCommand {
        match GetSubcommand(LoadRootSpec(env, tokens))
        case None =>
        case Some(root) => SubcommandHistoryFromInput(env, tokens[1..], root, [], [], false, false);
      } else {
        ArgHistoryFromInput(env, tokens[1..], args[1..], node, persistentOptions, accepted + [token], fromOption, false);
      }
    }
  }

  lemma {:induction false} OptionHistoryFromInput(env: Env, tokens: seq<Token>, option: Opt, node: Node,
                                                  persistentOptions: seq<Opt>, accepted: seq<Token>)
    ensures var r := RunOption(env, tokens, option, node, persistentOptions, accepted);
            r.IsContext() ==> Texts(r.accepted) <= Texts(accepted) + Texts(tokens)
    decreases |tokens|, 0
  {
    if tokens != [] {
      var token := tokens[0];
      var isPersistent := GetOption(token, persistentOptions).Some?;
      assert Texts(tokens[1..]) <= Texts(tokens);
      assert Texts(accepted + [token]) == Texts(accepted) + {token.text};
      assert Texts(accepted + [token.(isPersistent := isPersistent)]) == Texts(accepted) + {token.text};
      if !option.args.NoArgs? {
        ArgHistoryFromInput(env, tokens[1..], GetArgs(option.args), node, persistentOptions, accepted + [token], true, false);
      } else {
        SubcommandHistoryFromInput(env, tokens[1..], node, persistentOptions,
                                   accepted + [token.(isPersistent := isPersistent)], false, false);
      }
    }
  }

  /** A context keeps the given inherited options as a prefix, and the persistent tokens of the history likewise. */
  ghost predicate KeepsInherited(r: Outcome, persistentOptions: seq<Opt>, accepted: seq<Token>) {
    r.IsContext() ==>
      && IsPrefix(persistentOptions, r.persistentOptions)
      && IsPrefix(GetPersistentTokens(accepted), GetPersistentTokens(r.accepted))
  }

  /**
   * Inherited options only grow and persistent tokens survive every
   * subcommand boundary, however deep matching goes. Stated for a catalog
   * with no route table, because a command-valued arg restarts matching on
   * a fresh grammar with empty context.
   */
  lemma {:induction false} SubcommandKeepsInherited(env: Env, tokens: seq<Token>, node: Node,
                                                    persistentOptions: seq<Opt>, accepted: seq<Token>,
                                                    argsDepleted: bool, argsUsed: bool)
    requires env.specSet == map[]
    ensures KeepsInherited(RunSubcommand(env, tokens, node, persistentOptions, accepted, argsDepleted, argsUsed),
                           persistentOptions, accepted)
    decreases |tokens|, 2
  {
    if tokens != [] && tokens[0].complete {
      var token := tokens[0];
      var r := RunSubcommand(env, tokens, node, persistentOptions, accepted, argsDepleted, argsUsed);
      PersistentTokensConcat(accepted, [token]);
      if token.isOption {
        match GetOption(token, persistentOptions + OwnOptions(node))
        case Some(option) => OptionKeepsInherited(env, tokens, option, node, persistentOptions, accepted);
        case None =>
      } else {
        match Resolve(env, node, token.text)
        case Some(next) =>
          var inherited := GetPersistentOptions(persistentOptions, OwnOptions(node));
          var kept := GetPersistentTokens(accepted + [token]);
          SubcommandKeepsInherited(env, tokens[1..], next, inherited, kept, false, false);
          PersistentTokensIdempotent(accepted + [token]);
          if r.IsContext() {
            PrefixTransitive(persistentOptions, inherited, r.persistentOptions);
            PrefixTransitive(GetPersistentTokens(accepted), kept, GetPersistentTokens(r.accepted));
          }
        case None =>
          if ActiveArgsLength(node.args) > 0 {
            var args := GetArgs(node.args);
            if args != [] {
              var allOptions := persistentOptions + OwnOptions(node);
              ArgKeepsInherited(env, tokens, args, node, allOptions, accepted, false, false);
              if r.IsContext() {
                PrefixTransitive(persistentOptions, allOptions, r.persistentOptions);
              }
            } else {
              SubcommandKeepsInherited(env, tokens[1..], node, persistentOptions, accepted + [token], false, false);
              if r.IsContext() {
                PrefixTransitive(GetPersistentTokens(accepted), GetPersistentTokens(accepted + [token]),
                                 GetPersistentTokens(r.accepted));
              }
            }
          }
      }
    }
  }

  lemma {:induction false} ArgKeepsInherited(env: Env, tokens: seq<Token>, args: seq<Arg>, node: Node,
                                             persistentOptions: seq<Opt>, accepted: seq<Token>,
                                             fromOption: bool, fromVariadic: bool)
    requires env.specSet == map[]
    ensures KeepsInherited(RunArg(env, tokens, args, node, persistentOptions, accepted, fromOption, fromVariadic),
                           persistentOptions, accepted)
    decreases |tokens|, if args == [] then 3 else 1
  {
    if args == [] {
      SubcommandKeepsInherited(env, tokens, node, persistentOptions, accepted, true, !fromOption);
    } else if tokens != [] && tokens[0].complete {
      var token := tokens[0];
      var r := RunArg(env, tokens, args, node, persistentOptions, accepted, fromOption, fromVariadic);
      PersistentTokensConcat(accepted, [token]);
      if AllOptional(args) && token.isOption {
        match GetOption(token, persistentOptions + OwnOptions(node))
        case Some(option) => OptionKeepsInherited(env, tokens, option, node, persistentOptions, accepted);
        case None =>
      } else if AllOptional(args) && Resolve(env, node, token.text).Some? {
        var kept := GetPersistentTokens(accepted + [token]);
        SubcommandKeepsInherited(env, tokens[1..], Resolve(env, node, token.text).value,
                                 persistentOptions, kept, false, false);
        PersistentTokensIdempotent(accepted + [token]);
        if r.IsContext() {
          PrefixTransitive(GetPersistentTokens(accepted), kept, GetPersistentTokens(r.accepted));
        }
      } else if args[0].isVariadic {
        ArgKeepsInherited(env, tokens[1..], args, node, persistentOptions, accepted + [token], fromOption, true);
        if r.IsContext() {
          PrefixTransitive(GetPersistentTokens(accepted), GetPersistentTokens(accepted + [token]),
                           GetPersistentTokens(r.accepted));
        }
      } else if args[0].isCommand {
        assert LoadRootSpec(env, tokens).None?;
      } else {
        ArgKeepsInherited(env, tokens[1..], args[1..], node, persistentOptions, accepted + [token], fromOption, false);
        if r.IsContext() {
          PrefixTransitive(GetPersistentTokens(accepted), GetPersistentTokens(accepted + [token]),
                           GetPersistentTokens(r.accepted));
        }
      }
    }
  }

  lemma {:induction false} OptionKeepsInherited(env: Env, tokens: seq<Token>, option: Opt, node: Node,
                                                persistentOptions: seq<Opt>, accepted: seq<Token>)
    requires env.specSet == map[]
    ensures KeepsInherited(RunOption(env, tokens, option, node, persistentOptions, accepted),
                           persistentOptions, accepted)
    decreases |tokens|, 0
  {
    if tokens != [] {
      var token := tokens[0];
      var marked := token.(isPersistent := GetOption(token, persistentOptions).Some?);
      var r := RunOption(env, tokens, option, node, persistentOptions, accepted);
      if !option.args.NoArgs? {
        ArgKeepsInherited(env, tokens[1..], GetArgs(option.args), node, persistentOptions, accepted + [token], true, false);
        PersistentTokensConcat(accepted, [token]);
        if r.IsContext() {
          PrefixTransitive(GetPersistentTokens(accepted), GetPersistentTokens(accepted + [token]),
                           GetPersistentTokens(r.accepted));
        }
      } else {
        SubcommandKeepsInherited(env, tokens[1..], node, persistentOptions, accepted + [marked], false, false);
        PersistentTokensConcat(accepted, [marked]);
        if r.IsContext() {
          PrefixTransitive(GetPersistentTokens(accepted), GetPersistentTokens(accepted + [marked]),
                           GetPersistentTokens(r.accepted));
        }
      }
    }
  }

  /**
   * Because `runArg` receives the node's own options as "persistent", once an
   * arg has been taken a non-persistent option of the parent is offered in
   * the child too.
   */
  lemma ParentOptionReachesChild(env: Env)
    ensures
      var x := Opt(Single("-x"), NoArgs, false);
      var child := Node(Some(Single("c")), None, None, NoArgs, NoLoad);
      var parent := Node(Some(Single("p")), Some([child]), Some([x]), ArgList([Arg("a", false, false, false)]), NoLoad);
      var partial := Token("", false, false, false, false, false);
      var tokens := [Token("v", true, false, false, false, false), Token("c", true, false, false, false, false), partial];
      && !x.isPersistent
      && RunSubcommand(env, tokens, parent, [], [], false, false)
         == SubcommandDriven(child, [x], Some(partial), false, false, [])
  {
    var x := Opt(Single("-x"), NoArgs, false);
    var child := Node(Some(Single("c")), None, None, NoArgs, NoLoad);
    var parent := Node(Some(Single("p")), Some([child]), Some([x]), ArgList([Arg("a", false, false, false)]), NoLoad);
    var partial := Token("", false, false, false, false, false);
    var v := Token("v", true, false, false, false, false);
    var c := Token("c", true, false, false, false, false);
    var tokens := [v, c, partial];
    assert !NodeNamed(child, "v");
    assert Resolve(env, parent, "v").None?;
    assert Resolve(env, parent, "c") == Some(child);
    assert GetPersistentOptions([x], [x]) == [x] by {
      assert Declares([x], "-x");
      assert !HasNewName(x, [x]);
    }
    var a := Arg("a", false, false, false);
    assert OwnOptions(parent) == [x] && [] + [x] == [x];
    assert GetArgs(parent.args) == [a];
    assert [a][0] == a && !a.isOptional;
    assert !AllOptional([a]);
    assert tokens[1..] == [c, partial] && [a][1..] == [] && [] + [v] == [v];
    assert [c, partial][1..] == [partial] && [v] + [c] == [v, c];
    calc {
      RunSubcommand(env, tokens, parent, [], [], false, false);
      RunArg(env, tokens, [Arg("a", false, false, false)], parent, [x], [], false, false);
      RunArg(env, [c, partial], [], parent, [x], [v], false, false);
      RunSubcommand(env, [c, partial], parent, [x], [v], true, true);
      RunSubcommand(env, [partial], child, [x], GetPersistentTokens([v, c]), false, false);
      { assert GetPersistentTokens([v, c]) == []; }
      SubcommandDriven(child, [x], Some(partial), false, false, []);
    }
  }
}
