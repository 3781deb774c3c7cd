# Completion runtime model

A Dafny model of the command-line completion runtime of `src/autocomplete/runtime/runtime.ts`. That runtime matches a tokenized command line against Fig-style command grammars. A grammar is a tree of subcommands, options (flags) and positional args. Any child may carry a deferred `loadSpec`, which is resolved the first time the child is reached.

The model has seven modules:

- **FigTypes** (`types.dfy`): tokens, grammar nodes, options, args, deferred loaders, the route trie, and the collaborators the runtime consults (`Env`).
  - Node fields may be absent, because merging a loaded fragment into a node only overrides the fields the fragment has.
- **Grammar** (`grammar.dfy`): the pure helpers `getOption`, `getPersistentOptions`, `getPersistentTokens`, `getArgs` and `getSubcommand`.
- **Catalog** (`catalog.dfy`): the catalog built at start-up.
  - The `specSet` route trie is built by a loop over the bundled command list.
  - The synthetic `rootSpec` lists every plain root command.
  - Loading a root command's grammar module is included.
- **Resolver** (`resolver.dfy`): `genSubcommand`.
  - `ResolveAmong` and `Memoize` specify it as values.
  - The class `SubcommandList` owns a parent's `subcommands` array and writes the resolved child back in place. It is proved to answer as `ResolveAmong` and to leave the array as `Memoize` says.
- **Matcher** (`matcher.dfy`): `runSubcommand`, `runArg` and `runOption`.
  - They are mutually recursive functions over a pure child resolution.
  - Termination is by the number of tokens left plus a phase number.
- **MatcherProperties** (`matcher_props.dfy`):
  - one lemma per decision of the matcher;
  - inductive lemmas about whole matching passes: variadic args, arg-less nodes, where the accepted history comes from, and how inherited context survives subcommand boundaries;
  - a concrete pass showing that a parent's non-persistent option reaches a child.
- **Runtime** (`runtime.dfy`): `getSuggestions`.
  - `Suggest` chooses the grammar matching starts from and computes `charactersToDrop`.
  - The class `SpecRuntime` holds `specSet`, `rootSpec` and the `loadedSpecs` cache. Its `LoadSpec` and `GetSuggestions` are proved equal to the cache-free functions.

Behaviours of the code that a reader might not expect, all kept as written:

- **A required variadic arg also takes option-looking tokens.** Options are looked up only while every remaining arg is optional (`runtime.ts:331-363`). See `MatcherProperties.VariadicSwallows`.
- **Optional args take unknown words.** When every remaining arg is optional, a word that is neither an option nor a child is still taken positionally by the first arg, rather than ending matching (`runtime.ts:331-352`). See `MatcherProperties.OptionalArgsTakeUnknownWords`.
- **A parent's non-persistent options reach a child.** `runSubcommand` hands `allOptions` (inherited plus own) to `runArg` as its "persistent" list (`runtime.ts:454`). Once an arg was taken, a child reached from `runArg` inherits the parent's non-persistent options. See `MatcherProperties.ParentOptionReachesChild`.
- **A command-valued arg loads the grammar of the current token.** Its guard `tokens.length <= 0` (`runtime.ts:365`) can never hold, because the branch is reached with at least one token. See `MatcherProperties.CommandArgRestarts`.
- **`args: []` on an option is not a flag.** An option with `args: []` takes the argument path (`runtime.ts:274`). It therefore returns to subcommand matching with `argsDepleted` set and `argsUsed` clear. See `MatcherProperties.EmptyOptionArgsResume`.
- **`args` absent and `args: []` differ.** An unconsumable word at a node with `args: []` ends matching. At a node without an `args` field, it is skipped (`runtime.ts:421, 446-458`). See `MatcherProperties.UnknownWordsSkipped`.

## Model

| member | source | states |
|---|---|---|
| FigTypes.Aliases | src/autocomplete/runtime/runtime.ts:150 | a text is among a `name` field's strings exactly when the name (or one of its aliases) equals it |
| Grammar.FirstWhere | src/autocomplete/runtime/runtime.ts:180-184 | `findIndex`: the index found satisfies the test and no earlier one does; none is found exactly when no element satisfies it |
| Grammar.GetOption | src/autocomplete/runtime/runtime.ts:245-249 | the option returned is in the list and named by the token, and no earlier option is; none is returned exactly when no option is named by the token |
| Grammar.OptionNames | src/autocomplete/runtime/runtime.ts:149-151 | the flattened name set holds exactly the names and aliases some inherited option declares |
| Grammar.NewPersistent | src/autocomplete/runtime/runtime.ts:153-158 | the filter keeps exactly the options that are persistent and whose single name is new, or with some new alias |
| Grammar.GetPersistentOptions | src/autocomplete/runtime/runtime.ts:148-160 | the inherited list is an unchanged prefix; an option is appended iff it is in `options`, persistent and has a name no inherited option declares; a single-name option already inherited is never appended |
| Grammar.GetPersistentTokens | src/autocomplete/runtime/runtime.ts:251-253 | a token is kept iff it is in the input and flagged persistent; the result is never longer |
| Grammar.PersistentTokensConcat | src/autocomplete/runtime/runtime.ts:251-253 | filtering a concatenation is concatenating the filtered parts |
| Grammar.PersistentTokensIdempotent | src/autocomplete/runtime/runtime.ts:251-253 | filtering an already filtered history changes nothing |
| Grammar.ActiveArgsLength | src/autocomplete/runtime/runtime.ts:421 | the active args length is zero only for an explicit empty array |
| Grammar.GetArgs | src/autocomplete/runtime/runtime.ts:255-257 | absent args give the empty list, a single arg the one-element list, an array itself |
| Grammar.GetSubcommand | src/autocomplete/runtime/runtime.ts:163-173 | no node exactly when the spec is missing or is a function whose result has no `name`; a plain spec is returned as it is, a function's result otherwise |
| Catalog.Split | src/autocomplete/runtime/runtime.ts:48 | at least one route, no route contains '/', a name without '/' is its own single route |
| Catalog.SplitJoin | src/autocomplete/runtime/runtime.ts:48 | joining the routes with '/' gives the command name back |
| Catalog.LeafPath | src/autocomplete/runtime/runtime.ts:54-55 | the module file is the command name followed by exactly `/index.js` for a versioned command and exactly `.js` otherwise, so it is never empty |
| Catalog.Insert | src/autocomplete/runtime/runtime.ts:49-60 | only the first route's entry may change, it is present afterwards, and a single route is assigned the leaf |
| Catalog.InsertThenLookup | src/autocomplete/runtime/runtime.ts:50-58 | a string at an intermediate route leaves the trie unchanged; otherwise following the routes reaches the new leaf, overwriting what was there |
| Catalog.BuildSpecSet | src/autocomplete/runtime/runtime.ts:46-61 | the loop builds the trie `SpecSetOf` gives for the whole command list |
| Catalog.SpecSetOf | src/autocomplete/runtime/runtime.ts:46-61 | the trie's top-level keys are exactly the first routes of the listed commands |
| Catalog.PlainNamesAreLeaves | src/autocomplete/runtime/runtime.ts:46-61 | every command without '/' ends as a top-level leaf naming its own module file (`.js`, or `/index.js` when versioned) |
| Catalog.RootChildren | src/autocomplete/runtime/runtime.ts:27-34 | an entry for a name is listed iff the name is in the command list without '/' and '@', never more entries than names |
| Catalog.RootSpec | src/autocomplete/runtime/runtime.ts:24-35 | `rootSpec` is named "root", has no loader, and lists exactly the plain commands, each loaded by its own key |
| Catalog.Truthy | src/autocomplete/runtime/runtime.ts:76 | a `specSet` entry is truthy unless it is the empty string |
| Catalog.ModulePath | src/autocomplete/runtime/runtime.ts:78 | a string entry is its own module path, and the path interpolated is non-empty exactly when the entry is truthy |
| Catalog.ImportModule | src/autocomplete/runtime/runtime.ts:78 | a module's default export is present iff the bundled path exists |
| Catalog.ImportRoot | src/autocomplete/runtime/runtime.ts:76-80 | a grammar is found only for a key present in `specSet` |
| Catalog.LoadRootSpec | src/autocomplete/runtime/runtime.ts:65-85 | nothing without a complete root token; a grammar only for a root present in `specSet` |
| Catalog.PlainCommandLoadsItsFile | src/autocomplete/runtime/runtime.ts:53-55 | with the trie built from the list, a plain command's grammar is the module at its own file |
| Resolver.FindChild | src/autocomplete/runtime/runtime.ts:180-184 | the index found names a child called `command` by name or alias and no earlier child is; none exactly when no child is |
| Resolver.FindNode | src/autocomplete/runtime/runtime.ts:201 | `find`: the node found is the first in the list that passes the test; none exactly when no node passes |
| Resolver.Merge | src/autocomplete/runtime/runtime.ts:214-218 | the merged node has no loader; each of the fragment's name, subcommands and options replaces the child's when present and keeps the child's when absent, and so do its args (absent meaning no `args` field); no fragment leaves the child as it was |
| Resolver.MergeIdempotent | src/autocomplete/runtime/runtime.ts:214-218 | spreading the same fragment twice is spreading it once |
| Resolver.LoadSpecLocation | src/autocomplete/runtime/runtime.ts:93-95 | loading a spec location never yields a grammar |
| Resolver.LocatedSubcommands | src/autocomplete/runtime/runtime.ts:193-198 | a list of spec locations yields no subcommands |
| Resolver.LooselyNamed | src/autocomplete/runtime/runtime.ts:201 | `s?.name == command`: for a single name, or an alias array of one, the same as naming by name or alias; an empty alias array matches only the empty command |
| Resolver.LoadedPart | src/autocomplete/runtime/runtime.ts:189-236 | the fragment spread over the child for each loader kind: the inline object, the node of module `key.js`, a function loader's plain answer, and nothing for location answers or no loader |
| Resolver.Resolved | src/autocomplete/runtime/runtime.ts:189-241 | a child without loader is returned as is; an inline object, a string key's module node, or a function loader's plain answer is spread over the child; a loader answering with locations yields the child with its loader cleared; no loader is ever left |
| Resolver.LocationLoadersMemoiseSafely | src/autocomplete/runtime/runtime.ts:192-212 | a function loader answering with locations stores the child with only its loader cleared, and a second lookup answers the same |
| Resolver.ResolveAmong | src/autocomplete/runtime/runtime.ts:177-243 | nothing iff no child is named `command` (including no children); otherwise the first such child, resolved, with no loader |
| Resolver.Resolve | src/autocomplete/runtime/runtime.ts:177-184 | nothing iff no child of the parent is named `command`; a found node has no loader |
| Resolver.Memoize | src/autocomplete/runtime/runtime.ts:199-237 | the array keeps its length; only the first matching index changes, to the returned node; no match changes nothing |
| Resolver.SecondLookupHitsMemo | src/autocomplete/runtime/runtime.ts:239-241 | if the resolved node keeps the name, a second lookup finds the same index with no loader, answers the same, and writes nothing new |
| Resolver.RenamingFragmentDefeatsMemo | src/autocomplete/runtime/runtime.ts:214-219 | a loaded fragment that renames the child makes a second lookup of the old name miss |
| Resolver.SubcommandList.GenSubcommand | src/autocomplete/runtime/runtime.ts:177-243 | answers as `ResolveAmong` on the array before the call, and leaves the array as `Memoize` gives it |
| Matcher.RunSubcommand | src/autocomplete/runtime/runtime.ts:386-459 | never the invalid state; an arg-driven context has args left; a context's partial token is an incomplete input token |
| Matcher.RunArg | src/autocomplete/runtime/runtime.ts:296-384 | never the invalid state; an arg-driven context has args left; a context's partial token is an incomplete input token |
| Matcher.RunOption | src/autocomplete/runtime/runtime.ts:259-294 | the invalid state (the throw) exactly when no tokens are left; otherwise as `runArg`/`runSubcommand` |
| Matcher.AllOptional | src/autocomplete/runtime/runtime.ts:331 | `every`: true exactly when every arg is optional, so for no args |
| MatcherProperties.SubcommandTerminal | src/autocomplete/runtime/runtime.ts:396-418 | no tokens or an incomplete first token end in a subcommand-driven context carrying that token and the flags and history as given |
| MatcherProperties.UnknownOptionHalts | src/autocomplete/runtime/runtime.ts:424-430 | an option token named by no inherited or own option gives no result |
| MatcherProperties.ChildDescent | src/autocomplete/runtime/runtime.ts:433-444 | a child token descends with the inherited options as a prefix grown only by persistent own options, only the persistent tokens of history plus token, and both flags reset |
| MatcherProperties.UnconsumableWordHalts | src/autocomplete/runtime/runtime.ts:446-449 | a word that is neither option nor child at a node with `args: []` gives no result |
| MatcherProperties.WordGoesToArgs | src/autocomplete/runtime/runtime.ts:451-455 | such a word at a node with args goes to `runArg` with the inherited plus own options as its persistent list |
| MatcherProperties.WordSkippedWithoutArgs | src/autocomplete/runtime/runtime.ts:457-458 | such a word at a node without `args` is added to the history and matching goes on at the same node |
| MatcherProperties.UnknownWordsSkipped | src/autocomplete/runtime/runtime.ts:457-458 | at a node without `args`, any run of such words all join the history and the context stays at the node |
| MatcherProperties.ArgsExhausted | src/autocomplete/runtime/runtime.ts:306-307 | out of args, matching returns to the node with `argsDepleted` set and `argsUsed` unless the args were an option's |
| MatcherProperties.ArgTerminal | src/autocomplete/runtime/runtime.ts:308-328 | no tokens or an incomplete first token end in an arg-driven context for the remaining args |
| MatcherProperties.OptionalArgsTakeUnknownWords | src/autocomplete/runtime/runtime.ts:331-383 | with all args optional, a word that is neither option nor child is still taken by the first arg |
| MatcherProperties.VariadicStep | src/autocomplete/runtime/runtime.ts:353-363 | a variadic first arg takes the token, stays active, and sets `fromVariadic` |
| MatcherProperties.VariadicSwallows | src/autocomplete/runtime/runtime.ts:353-363 | a required variadic arg takes every complete token, options included, ending on the last partial token with the whole run in the history |
| MatcherProperties.ScalarStep | src/autocomplete/runtime/runtime.ts:374-383 | a plain first arg takes the token and the next arg becomes active |
| MatcherProperties.CommandArgRestarts | src/autocomplete/runtime/runtime.ts:364-373 | a command arg loads the grammar keyed by the current token and restarts with no inherited options or history, or gives no result |
| MatcherProperties.OptionTakesArgs | src/autocomplete/runtime/runtime.ts:274-285 | an option with any `args` field hands the following tokens to its args with `fromOption` set |
| MatcherProperties.EmptyOptionArgsResume | src/autocomplete/runtime/runtime.ts:274-285 | an option with `args: []` resumes at the node with `argsDepleted` set and `argsUsed` clear |
| MatcherProperties.FlagResumes | src/autocomplete/runtime/runtime.ts:270-293 | a flag resumes at the node, its token marked persistent exactly when an inherited option is named by it |
| MatcherProperties.SubcommandHistoryFromInput | src/autocomplete/runtime/runtime.ts:386-459 | every text in a context's history was in the starting history or among the input tokens |
| MatcherProperties.ArgHistoryFromInput | src/autocomplete/runtime/runtime.ts:296-384 | as above, starting from `runArg` |
| MatcherProperties.OptionHistoryFromInput | src/autocomplete/runtime/runtime.ts:259-294 | as above, starting from `runOption` |
| MatcherProperties.SubcommandKeepsInherited | src/autocomplete/runtime/runtime.ts:433-444 | a context's options keep the inherited options as a prefix, and its persistent tokens keep the starting persistent tokens as a prefix, at any depth |
| MatcherProperties.ArgKeepsInherited | src/autocomplete/runtime/runtime.ts:296-384 | as above, starting from `runArg` |
| MatcherProperties.OptionKeepsInherited | src/autocomplete/runtime/runtime.ts:259-294 | as above, starting from `runOption` |
| MatcherProperties.ParentOptionReachesChild | src/autocomplete/runtime/runtime.ts:454 | after an arg of the parent, the parent's non-persistent option is among the child's offered options |
| Runtime.CharactersToDrop | src/autocomplete/runtime/runtime.ts:113-131 | outside the path case, zero exactly when the last token is complete or empty, else its JavaScript length; for a path token under a found grammar, zero when the path is complete and the base name's length otherwise; never more than the token when the base name is not |
| Runtime.MarkPath | src/autocomplete/runtime/runtime.ts:122-125 | only the last token may change, and it is flagged as a path (complete or not) exactly when path resolution says so |
| Runtime.FilepathSpec | src/autocomplete/runtime/runtime.ts:37-44 | `filepathSpec` is named `filepaths`, has no children, options or loader, and one required variadic arg |
| Runtime.Utf16Length | src/autocomplete/runtime/runtime.ts:114 | JavaScript's `length`: one for a character of the Basic Multilingual Plane, two for any other; zero only for the empty text, between the number of characters and twice that |
| Runtime.Utf16LengthConcat | src/autocomplete/runtime/runtime.ts:114 | the length of joined texts is the sum of their lengths, which with the one-character values fixes the length of every text |
| Runtime.Suggest | src/autocomplete/runtime/runtime.ts:97-146 | no result for no tokens; any result is a recommendation context (never the invalid state), its partial token is incomplete, and it carries `CharactersToDrop` for the last token with the path rule applying exactly when a root grammar was found |
| Runtime.IncompleteRootListsCommands | src/autocomplete/runtime/runtime.ts:137-140 | an incomplete root token gives `rootSpec`'s context filtered by that token, replacing its text |
| Runtime.UnknownRootSuggestsPaths | src/autocomplete/runtime/runtime.ts:133-136 | an unknown complete root plus trailing space gives the `filepaths` arg context whose history is every complete token, the root included, replacing the partial token's JavaScript length |
| Runtime.KnownRootMatchesRest | src/autocomplete/runtime/runtime.ts:117-131 | a found grammar is matched against the remaining tokens with no inherited context, and the drop follows the path rule |
| Runtime.SpecRuntime.constructor | src/autocomplete/runtime/runtime.ts:23-63 | start-up state: `specSet` is the trie of the command list, `rootSpec` the root list, and the cache is empty |
| Runtime.SpecRuntime.LoadSpec | src/autocomplete/runtime/runtime.ts:65-85 | answers as the cache-free loader and keeps every cached entry equal to a fresh import; a found grammar is cached; only the root token's entry may change |
| Runtime.SpecRuntime.GetSuggestions | src/autocomplete/runtime/runtime.ts:97-146 | with a consistent cache, the result is `Suggest` on the same input; the cache stays consistent, keeps every entry, changes at most the root token's entry to what the catalog gives, and holds the root's grammar once one was found |

## Left out

- The `Newton` exploratory parser (`runtime.ts:103-105`) is left out, because its output is only logged.
- The `parseCommand` tokenizer is not part of this model. The token list is an input, and so is whether the raw text ends in a space.
- Dynamic `import()` of grammar modules is modelled as the map `Env.modules`.
  - A missing path imports as `undefined`.
  - A rejected import is not modelled.
  - The bundled command list is a parameter.
- What function loaders do with `executeShellCommand` and its 5000 ms timeout is abstracted as `Env.run(id, command)`.
- `resolveCwd` and `pathBaseName` need the filesystem and the shell. Their answers are the input `PathInfo`.
- `cwd` is not threaded through the matcher, because only the recommendation builders and path resolution use it.
- `getArgDrivenRecommendation` and `getSubcommandDrivenRecommendation` (ranking and formatting) are left out. The matcher returns the context record they would receive.
- `log.debug` and the async/await plumbing are left out. The flow is sequential.
- The model does not thread the memo and the cache through a matching pass. The matcher uses the pure `Resolve` and `LoadRootSpec`, so two things are not captured:
  - the in-place write-back of resolved children during a pass;
  - a `loadSpec` call made from a command arg filling `loadedSpecs`.
  - `SubcommandList` and `SpecRuntime` prove that each stateful operation, taken alone, answers as the pure one. The matcher itself works on the untouched trees.
- Runtime.SpecRuntime.GetSuggestions: does not model write-backs persisting across requests, nor across a command arg within one pass.
  - In the code, `loadedSpecs` keeps the imported grammar object (`runtime.ts:79`), and `rootSpec` is a module-level object.
  - `genSubcommand` writes merged nodes into those objects' `subcommands` arrays (`runtime.ts:199-237`). A later request, or a command arg that reloads the same root, walks the rewritten tree.
  - The model's cache holds the grammar as imported, and `Suggest` resolves over untouched trees. The two agree only while every resolved child keeps its name and every loader answers alike for each alias.
  - Example: root `x` has a child named `a` with an inline fragment named `b`, and `[x, a, ""]` is sent twice. The code descends into `b` the first time. The second time, `a` is no longer found, so the word is skipped. The model gives the first answer both times (compare `Resolver.RenamingFragmentDefeatsMemo`).
- The `tokens.length <= 0` guard of a command arg (`runtime.ts:365-367`) can never hold, so it has no branch in `Matcher.RunArg`.
- Property names inherited from JavaScript's `Object.prototype` are not modelled. Such names include `constructor`, looked up in `specSet` and `loadedSpecs`. The maps hold only keys that were put there.
- A field present with the explicit value `undefined` is treated as absent.
- A function spec's result having a `name` key whose value is `undefined` is not distinguished from having no `name`.
- The shape test `hasOwnProperty("type")` is modelled as the tagged result `GenResult`.
- MatcherProperties.SubcommandKeepsInherited, MatcherProperties.ArgKeepsInherited and MatcherProperties.OptionKeepsInherited assume an empty `specSet`. A command arg restarts matching on a fresh grammar with no inherited options or history, so with a catalog the prefix property does not hold across that restart.
- Resolver.SecondLookupHitsMemo assumes the resolved node still carries the looked-up name. A fragment that renames the child defeats the memo (`Resolver.RenamingFragmentDefeatsMemo`).
