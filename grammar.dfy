/**
 * Pure helpers over the grammar: option lookup, the inherited
 * ("persistent") option list, persistent tokens, args normalisation and
 * grammar values that may be zero-argument functions.
 */
module Grammar {
  import opened FigTypes

  /** Index of the first element satisfying `p` (`Array.prototype.findIndex`). */
  function FirstWhere<T>(s: seq<T>, p: T -> bool): (r: Option<nat>)
    ensures r.Some? ==> r.value < |s| && p(s[r.value])
    ensures r.Some? ==> forall j :: 0 <= j < r.value ==> !p(s[j])
    ensures r.None? <==> forall j :: 0 <= j < |s| ==> !p(s[j])
  {
    if s == [] then None
    else if p(s[0]) then Some(0)
    else match FirstWhere(s[1..], p)
      case None => None
      case Some(k) => Some(k + 1)
  }

  /** Whether option `o` is named `text` by its name or one of its aliases. */
  predicate OptionNamed(o: Opt, text: string) {
    NamesInclude(o.names, text)
  }

  /** `getOption`: the first option whose name or alias equals the token exactly. */
  function GetOption(token: Token, options: seq<Opt>): (r: Option<Opt>)
    ensures r.None? <==> forall i :: 0 <= i < |options| ==> !OptionNamed(options[i], token.text)
    ensures r.Some? ==> exists i :: 0 <= i < |options| && options[i] == r.value
                                    && OptionNamed(options[i], token.text)
                                    && forall j :: 0 <= j < i ==> !OptionNamed(options[j], token.text)
  {
    match FirstWhere(options, o => OptionNamed(o, token.text))
    case None => None
    case Some(i) => Some(options[i])
  }

  /** Some option of `options` carries `name` among its names. */
  ghost predicate Declares(options: seq<Opt>, name: string) {
    exists o :: o in options && name in Aliases(o.names)
  }

  /** The flattened set of names of `options` (`persistentOptionNames`). */
  function OptionNames(options: seq<Opt>): (r: set<string>)
    ensures forall n :: n in r <==> Declares(options, n)
  {
    if options == [] then {}
    else
      var rest := OptionNames(options[1..]);
      assert forall n :: Declares(options, n) <==> n in Aliases(options[0].names) || Declares(options[1..], n) by {
        forall n ensures Declares(options, n) ==> n in Aliases(options[0].names) || Declares(options[1..], n) {
          if Declares(options, n) {
            var o :| o in options && n in Aliases(o.names);
            if o != options[0] {
              assert o in options[1..];
            }
          }
        }
      }
      Aliases(options[0].names) + rest
  }

  /**
   * The admission test of `getPersistentOptions`: a single name must be new,
   * for an alias array it is enough that SOME alias is new; and the option
   * must be flagged persistent.
   */
  predicate Admits(o: Opt, inherited: set<string>) {
    (match o.names
     case Single(n) => n !in inherited
     case Multi(ns) => exists n :: n in ns && n !in inherited)
    && o.isPersistent
  }

  /** Some name of `o` is not declared by any option of `inherited`. */
  ghost predicate HasNewName(o: Opt, inherited: seq<Opt>) {
    exists n :: n in Aliases(o.names) && !Declares(inherited, n)
  }

  /** The options of `options` that `Admits`, in order. */
  function NewPersistent(options: seq<Opt>, inherited: set<string>): (r: seq<Opt>)
    ensures |r| <= |options|
    ensures forall o :: o in r <==> o in options && Admits(o, inherited)
  {
    if options == [] then []
    else if Admits(options[0], inherited) then [options[0]] + NewPersistent(options[1..], inherited)
    else NewPersistent(options[1..], inherited)
  }

  /**
   * `getPersistentOptions`: the inherited list stays an unchanged prefix;
   * what is appended is exactly the persistent options of `options` having a
   * name no inherited option declares.
   */
  function GetPersistentOptions(inherited: seq<Opt>, options: seq<Opt>): (r: seq<Opt>)
    ensures |inherited| <= |r| <= |inherited| + |options|
    ensures r[..|inherited|] == inherited
    ensures forall o :: o in r[|inherited|..] <==>
                        o in options && o.isPersistent && HasNewName(o, inherited)
    ensures forall o :: o in options && o.names.Single? && Declares(inherited, o.names.name) ==>
                        o !in r[|inherited|..]
  {
    var names := OptionNames(inherited);
    var added := NewPersistent(options, names);
    assert forall o :: Admits(o, names) <==> o.isPersistent && HasNewName(o, inherited);
    var r := inherited + added;
    assert r[|inherited|..] == added;
    r
  }

  /** `getPersistentTokens`: only the tokens flagged persistent, in order. */
  function GetPersistentTokens(tokens: seq<Token>): (r: seq<Token>)
    ensures |r| <= |tokens|
    ensures forall t :: t in r <==> t in tokens && t.isPersistent
  {
    if tokens == [] then []
    else if tokens[0].isPersistent then [tokens[0]] + GetPersistentTokens(tokens[1..])
    else GetPersistentTokens(tokens[1..])
  }

  /** Filtering persistent tokens distributes over concatenation. */
  lemma {:induction false} PersistentTokensConcat(a: seq<Token>, b: seq<Token>)
    ensures GetPersistentTokens(a + b) == GetPersistentTokens(a) + GetPersistentTokens(b)
  {
    if a == [] {
      assert a + b == b;
    } else {
      assert (a + b)[1..] == a[1..] + b;
      PersistentTokensConcat(a[1..], b);
    }
  }

  /** Filtering persistent tokens twice changes nothing. */
  lemma {:induction false} PersistentTokensIdempotent(tokens: seq<Token>)
    ensures GetPersistentTokens(GetPersistentTokens(tokens)) == GetPersistentTokens(tokens)
  {
    if tokens != [] {
      PersistentTokensIdempotent(tokens[1..]);
    }
  }

  /** `activeArgsLength` of `runSubcommand`: 1 for anything that is not an array. */
  function ActiveArgsLength(spec: ArgSpec): (r: nat)
    ensures r == 0 <==> spec == ArgList([])
  {
    match spec
    case ArgList(s) => |s|
    case _ => 1
  }

  /** `getArgs`: normalise an absent, single or array `args` field to a list. */
  function GetArgs(spec: ArgSpec): (r: seq<Arg>)
    ensures r == [] <==> spec.NoArgs? || spec == ArgList([])
    ensures spec.OneArg? ==> r == [spec.arg]
    ensures spec.ArgList? ==> r == spec.args
  {
    match spec
    case NoArgs => []
    case OneArg(a) => [a]
    case ArgList(s) => s
  }

  /** `getSubcommand`: a grammar value that may be a zero-argument function. */
  function GetSubcommand(spec: Option<Spec>): (r: Option<Node>)
    ensures r.None? <==> spec.None? || (spec.value.Thunk? && spec.value.produces.name.None?)
    ensures spec.Some? && spec.value.Direct? ==> r == Some(spec.value.node)
    ensures spec.Some? && spec.value.Thunk? && r.Some? ==> r.value == spec.value.produces
  {
    match spec
    case None => None
    case Some(Direct(n)) => Some(n)
    case Some(Thunk(n)) => if n.name.Some? then Some(n) else None
  }
}
