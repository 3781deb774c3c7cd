/**
 * The entry point `getSuggestions`: choose the grammar matching starts from
 * (the root command's grammar, `filepathSpec` or `rootSpec`), run the
 * matcher, and compute how many typed characters a suggestion replaces.
 * The per-root cache `loadedSpecs` and the module-level `specSet` and
 * `rootSpec` live in `SpecRuntime`.
 */
module Runtime {
  import opened FigTypes
  import opened Grammar
  import opened Catalog
  import opened Resolver
  import opened Matcher
  import opened MatcherProperties

  /** What path resolution says about the last token (`resolveCwd`, `pathBaseName`). */
  datatype PathInfo = PathInfo(pathy: bool, pathyComplete: bool, baseNameLength: nat)

  /** A suggestion result: the context for the recommendation builders, and `charactersToDrop`. */
  datatype Blob = Blob(context: Outcome, charactersToDrop: nat)

  /** `filepathSpec`: one required variadic `filepaths` arg. */
  function FilepathSpec(): (r: Node)
    ensures r.name == Some(Single("filepaths")) && r.loadSpec.NoLoad?
    ensures Children(r) == [] && OwnOptions(r) == []
    ensures GetArgs(r.args) == [Arg("filepaths", true, false, false)] && !AllOptional(GetArgs(r.args))
  {
    var filepaths := Arg("filepaths", true, false, false);
    assert [filepaths][0] == filepaths;
    Node(Some(Single("filepaths")), None, None, OneArg(filepaths), NoLoad)
  }

  /**
   * JavaScript's `length` of a string: the number of UTF-16 code units, two
   * for a character outside the Basic Multilingual Plane.
   */
  function Utf16Length(s: string): (r: nat)
    ensures |s| <= r <= 2 * |s|
    ensures r == 0 <==> s == []
    ensures r == |s| <==> forall i :: 0 <= i < |s| ==> (s[i] as int) < 0x10000
    ensures |s| == 1 ==> r == (if (s[0] as int) < 0x10000 then 1 else 2)
  {
    if s == [] then 0
    else (if (s[0] as int) < 0x10000 then 1 else 2) + Utf16Length(s[1..])
  }

  /** The length of joined texts is the sum of their lengths; with the one-character values this fixes it. */
  lemma {:induction false} Utf16LengthConcat(a: string, b: string)
    ensures Utf16Length(a + b) == Utf16Length(a) + Utf16Length(b)
  {
    if a != [] {
      assert (a + b)[1..] == a[1..] + b;
      Utf16LengthConcat(a[1..], b);
    } else {
      assert a + b == b;
    }
  }

  /**
   * `charactersToDrop`: nothing once the last token is complete, its whole
   * text while it is being typed; when a grammar was found and the token
   * looks like a path, only its base name (nothing if the path is complete).
   */
  function CharactersToDrop(last: Token, specFound: bool, path: PathInfo): (r: nat)
    ensures !(specFound && path.pathy) ==> (r == 0 <==> last.complete || last.text == [])
    ensures !(specFound && path.pathy) && !last.complete ==> r == Utf16Length(last.text)
    ensures specFound && path.pathy ==> r == (if path.pathyComplete then 0 else path.baseNameLength)
    ensures path.baseNameLength <= Utf16Length(last.text) ==> r <= Utf16Length(last.text)
  {
    if specFound && path.pathy then (if path.pathyComplete then 0 else path.baseNameLength)
    else if last.complete then 0 else Utf16Length(last.text)
  }

  /** The last token, flagged as a path when path resolution says so. */
  function MarkPath(tokens: seq<Token>, path: PathInfo): (r: seq<Token>)
    requires tokens != []
    ensures |r| == |tokens| && r[..|r| - 1] == tokens[..|tokens| - 1]
    ensures path.pathy ==> r[|r| - 1] == tokens[|tokens| - 1].(isPath := true, isPathComplete := path.pathyComplete)
    ensures !path.pathy ==> r == tokens
  {
    if path.pathy then
      tokens[|tokens| - 1 := tokens[|tokens| - 1].(isPath := true, isPathComplete := path.pathyComplete)]
    else tokens
  }

  /** `getSuggestions` on a tokenized command line, without the root cache. */
  function Suggest(env: Env, rootSpec: Node, tokens: seq<Token>, endsWithSpace: bool, path: PathInfo): (r: Option<Blob>)
    ensures tokens == [] ==> r.None?
    ensures r.Some? ==> r.value.context.IsContext()
    ensures r.Some? ==> r.value.charactersToDrop
                        == CharactersToDrop(tokens[|tokens| - 1], LoadRootSpec(env, tokens).Some?, path)
    ensures r.Some? && r.value.context.partial.Some? ==> !r.value.context.partial.value.complete
  {
    if tokens == [] then None
    else
      var last := tokens[|tokens| - 1];
      match LoadRootSpec(env, tokens)
      case Some(spec) =>
        (match GetSubcommand(Some(spec))
         case None => None
         case Some(subcommand) =>
           var result := RunSubcommand(env, MarkPath(tokens, path)[1..], subcommand, [], [], false, false);
           if result.NoResult? then None
           else Some(Blob(result, CharactersToDrop(last, true, path))))
      case None =>
        var result := RunSubcommand(env, tokens, if endsWithSpace then FilepathSpec() else rootSpec, [], [], false, false);
        if result.NoResult? then None
        else Some(Blob(result, CharactersToDrop(last, false, path)))
  }

  /**
   * While the root command is still being typed, the suggestions are the
   * root command list filtered by the partial root token, replacing the
   * last token's text.
   */
  lemma IncompleteRootListsCommands(env: Env, rootSpec: Node, tokens: seq<Token>, path: PathInfo)
    requires tokens != [] && !tokens[0].complete
    ensures Suggest(env, rootSpec, tokens, false, path)
            == Some(Blob(SubcommandDriven(rootSpec, [], Some(tokens[0]), false, false, []),
                         CharactersToDrop(tokens[|tokens| - 1], false, path)))
  {
  }

  /**
   * A complete root command with no grammar, followed by a space, gives
   * path suggestions: every later complete token is taken by the variadic
   * `filepaths` arg and the last token, if incomplete, is the partial one.
   */
  lemma UnknownRootSuggestsPaths(env: Env, rootSpec: Node, tokens: seq<Token>, path: PathInfo)
    requires |tokens| >= 2 && tokens[0].complete && !tokens[0].isOption
    requires tokens[0].text !in env.specSet
    requires forall i :: 0 <= i < |tokens| - 1 ==> tokens[i].complete
    requires !tokens[|tokens| - 1].complete
    ensures Suggest(env, rootSpec, tokens, true, path)
            == Some(Blob(ArgDriven([Arg("filepaths", true, false, false)], FilepathSpec(), [],
                                   Some(tokens[|tokens| - 1]), tokens[..|tokens| - 1], true),
                         Utf16Length(tokens[|tokens| - 1].text)))
  {
    var fp := Arg("filepaths", true, false, false);
    assert [fp][0] == fp;
    assert !AllOptional([fp]);
    assert Resolve(env, FilepathSpec(), tokens[0].text).None?;
    assert GetArgs(FilepathSpec().args) == [fp];
    var none: seq<Opt> := [];
    assert OwnOptions(FilepathSpec()) == none && none + none == none;
    assert LoadRootSpec(env, tokens).None?;
    VariadicSwallows(env, tokens, [fp], FilepathSpec(), [], [], false, false);
    assert [] + tokens[..|tokens| - 1] == tokens[..|tokens| - 1];
    assert RunSubcommand(env, tokens, FilepathSpec(), [], [], false, false)
        == RunArg(env, tokens, [fp], FilepathSpec(), [], [], false, false);
  }

  /**
   * With a grammar for the root command, matching starts at its node on the
   * remaining tokens, with no inherited options or history.
   */
  lemma KnownRootMatchesRest(env: Env, rootSpec: Node, tokens: seq<Token>, endsWithSpace: bool, path: PathInfo)
    requires tokens != [] && tokens[0].complete
    requires GetSubcommand(ImportRoot(env, tokens[0].text)).Some?
    ensures var root := GetSubcommand(ImportRoot(env, tokens[0].text)).value;
            var result := RunSubcommand(env, MarkPath(tokens, path)[1..], root, [], [], false, false);
            Suggest(env, rootSpec, tokens, endsWithSpace, path)
            == if result.NoResult? then None
               else Some(Blob(result, CharactersToDrop(tokens[|tokens| - 1], true, path)))
  {
  }

  /**
   * The module-level state of the runtime: the route trie and root list
   * built at start-up, and the cache of loaded root grammars.
   */
  class SpecRuntime {
    const env: Env
    const rootSpec: Node
    var loadedSpecs: map<string, Option<Spec>>

    /** Every cached grammar is what the catalog gives for that root. */
    ghost predicate Valid()
      reads this
    {
      forall key :: key in loadedSpecs ==> loadedSpecs[key] == ImportRoot(env, key)
    }

    constructor (speclist: seq<string>, versioned: seq<string>, modules: map<string, Spec>,
                 run: (string, string) -> GenResult)
      ensures Valid() && loadedSpecs == map[]
      ensures env.specSet == SpecSetOf(speclist, versioned) && env.modules == modules
      ensures rootSpec == RootSpec(speclist)
    {
      var specSet := BuildSpecSet(speclist, versioned);
      env := Env(specSet, modules, run);
      rootSpec := RootSpec(speclist);
      loadedSpecs := map[];
    }

    /**
     * `loadSpec`: the root token's grammar, from the cache when it holds one
     * and otherwise imported and remembered (also when the import is empty).
     */
    method LoadSpec(tokens: seq<Token>) returns (spec: Option<Spec>)
      requires Valid()
      modifies this
      ensures Valid()
      ensures spec == LoadRootSpec(env, tokens)
      ensures spec.Some? ==> tokens[0].text in loadedSpecs && loadedSpecs[tokens[0].text] == spec
      ensures old(loadedSpecs).Keys <= loadedSpecs.Keys
      ensures tokens == [] || !tokens[0].complete ==> loadedSpecs == old(loadedSpecs)
      ensures tokens != [] && tokens[0].complete ==>
                loadedSpecs == old(loadedSpecs) || loadedSpecs == old(loadedSpecs)[tokens[0].text := spec]
    {
      if tokens == [] || !tokens[0].complete {
        return None;
      }
      var key := tokens[0].text;
      if key in loadedSpecs && loadedSpecs[key].Some? {
        return loadedSpecs[key];
      }
      if key in env.specSet && Truthy(env.specSet[key]) {
        spec := ImportModule(env, ModulePath(env.specSet[key]));
        loadedSpecs := loadedSpecs[key := spec];
        return spec;
      }
      return None;
    }

    /** `getSuggestions` */
    method GetSuggestions(tokens: seq<Token>, endsWithSpace: bool, path: PathInfo) returns (r: Option<Blob>)
      requires Valid()
      modifies this
      ensures Valid()
      ensures r == Suggest(env, rootSpec, tokens, endsWithSpace, path)
      ensures old(loadedSpecs).Keys <= loadedSpecs.Keys
      ensures tokens == [] || !tokens[0].complete ==> loadedSpecs == old(loadedSpecs)
      ensures tokens != [] && tokens[0].complete ==>
                loadedSpecs == old(loadedSpecs) || loadedSpecs == old(loadedSpecs)[tokens[0].text := LoadRootSpec(env, tokens)]
      ensures LoadRootSpec(env, tokens).Some? ==> tokens[0].text in loadedSpecs
    {
      if |tokens| == 0 {
        return None;
      }
      var spec := LoadSpec(tokens);
      var activeCmd := tokens;
      var lastCommand := activeCmd[|activeCmd| - 1];
      var charactersToDrop := if lastCommand.complete then 0 else Utf16Length(lastCommand.text);
      var result: Outcome;
      if spec.Some? {
        var subcommand := GetSubcommand(spec);
        if subcommand.None? {
          return None;
        }
        if path.pathy {
          activeCmd := activeCmd[|activeCmd| - 1 := lastCommand.(isPath := true, isPathComplete := path.pathyComplete)];
        }
        result := RunSubcommand(env, activeCmd[1..], subcommand.value, [], [], false, false);
        if path.pathy {
          charactersToDrop := if path.pathyComplete then 0 else path.baseNameLength;
        }
      } else if endsWithSpace {
        result := RunSubcommand(env, activeCmd, FilepathSpec(), [], [], false, false);
      } else {
        result := RunSubcommand(env, activeCmd, rootSpec, [], [], false, false);
      }
      if result.NoResult? {
        return None;
      }
      return Some(Blob(result, charactersToDrop));
    }
  }
}
