/**
 * Deferred child resolution (`genSubcommand`): find a child by name or
 * alias, resolve its `loadSpec`, and memoise the merged node in the
 * parent's `subcommands` array.
 *
 * `ResolveAmong` is the pure answer; `SubcommandList` owns the array and
 * does the in-place write-back, and is proved to answer as `ResolveAmong`.
 */
module Resolver {
  import opened FigTypes
  import opened Grammar
  import opened Catalog

  /** Child `n` is named `command` by its name or one of its aliases. */
  predicate NodeNamed(n: Node, command: string) {
    n.name.Some? && NamesInclude(n.name.value, command)
  }

  /** The `findIndex` of `genSubcommand`: the first child named `command`. */
  function FindChild(children: seq<Node>, command: string): (r: Option<nat>)
    ensures r.Some? ==> r.value < |children| && NodeNamed(children[r.value], command)
    ensures r.Some? ==> forall j :: 0 <= j < r.value ==> !NodeNamed(children[j], command)
    ensures r.None? <==> forall j :: 0 <= j < |children| ==> !NodeNamed(children[j], command)
  {
    FirstWhere(children, c => NodeNamed(c, command))
  }

  /** `Array.prototype.find`: the first node satisfying `p`. */
  function FindNode(s: seq<Node>, p: Node -> bool): (r: Option<Node>)
    ensures r.Some? ==> r.value in s && p(r.value)
    ensures r.None? <==> forall n :: n in s ==> !p(n)
    ensures r.Some? ==> exists i :: 0 <= i < |s| && s[i] == r.value && forall j :: 0 <= j < i ==> !p(s[j])
  {
    if s == [] then None
    else if p(s[0]) then Some(s[0])
    else FindNode(s[1..], p)
  }

  /**
   * `{...base, ...over, loadSpec: undefined}`: every field `over` has
   * replaces the base's; `over` absent (`?? []`) keeps the base as it is.
   */
  function Merge(base: Node, over: Option<Node>): (r: Node)
    ensures r.loadSpec == NoLoad
    ensures over.None? ==> r == base.(loadSpec := NoLoad)
    ensures over.Some? && over.value.name.Some? ==> r.name == over.value.name
    ensures over.Some? && over.value.name.None? ==> r.name == base.name
    ensures over.Some? ==> r.subcommands == (if over.value.subcommands.Some? then over.value.subcommands else base.subcommands)
    ensures over.Some? ==> r.options == (if over.value.options.Some? then over.value.options else base.options)
    ensures over.Some? ==> r.args == (if over.value.args.NoArgs? then base.args else over.value.args)
  {
    match over
    case None => base.(loadSpec := NoLoad)
    case Some(f) =>
      Node(
        if f.name.Some? then f.name else base.name,
        if f.subcommands.Some? then f.subcommands else base.subcommands,
        if f.options.Some? then f.options else base.options,
        if f.args.NoArgs? then base.args else f.args,
        NoLoad)
  }

  /** Merging the same fragment twice is the same as merging it once. */
  lemma MergeIdempotent(base: Node, over: Option<Node>)
    ensures Merge(Merge(base, over), over) == Merge(base, over)
  {
  }

  /** `lazyLoadSpecLocation`: loading from a spec location is not implemented. */
  function LoadSpecLocation(location: SpecLocation): (r: Option<Spec>)
    ensures r.None?
  {
    None
  }

  /**
   * The subcommands found at a list of spec locations
   * (`Promise.all(map(lazyLoadSpecLocation))`, then `getSubcommand`, dropping
   * the undefined ones).
   */
  function LocatedSubcommands(locations: seq<SpecLocation>): (r: seq<Node>)
    ensures r == []
  {
    if locations == [] then []
    else
      var head := match GetSubcommand(LoadSpecLocation(locations[0]))
        case Some(n) => [n]
        case None => [];
      head + LocatedSubcommands(locations[1..])
  }

  /** `s?.name == command` with JavaScript's loose equality (an array compares as its joined text). */
  function LooselyNamed(n: Node, command: string): (r: bool)
    ensures r ==> n.name.Some?
    ensures n.name.Some? && n.name.value.Single? ==> (r <==> NodeNamed(n, command))
    ensures n.name.Some? && n.name.value.Multi? && |n.name.value.aliases| == 1 ==> (r <==> NodeNamed(n, command))
    ensures n.name == Some(Multi([])) ==> (r <==> command == [])
  {
    n.name.Some? &&
    match n.name.value
    case Single(x) => x == command
    case Multi(xs) => Join(xs, ',') == command
  }

  /**
   * What `genSubcommand` spreads over the child: the inline object, the
   * referenced module's node, or what the function loader yields (a location
   * or a list of locations yields nothing, since locations never load).
   */
  function LoadedPart(env: Env, child: Node, command: string): (r: Option<Node>)
    ensures child.loadSpec.NoLoad? ==> r.None?
    ensures child.loadSpec.Inline? ==> r == Some(child.loadSpec.fragment)
    ensures child.loadSpec.Reference? ==> r == GetSubcommand(ImportModule(env, child.loadSpec.key + ".js"))
    ensures child.loadSpec.Generator? ==>
              match env.run(child.loadSpec.id, command)
              case Fragment(f) => r == Some(f)
              case _ => r.None?
  {
    match child.loadSpec
    case NoLoad => None
    case Inline(f) => Some(f)
    case Reference(key) => GetSubcommand(ImportModule(env, key + ".js"))
    case Generator(id) =>
      match env.run(id, command)
      case Locations(locations) =>
        var subs := LocatedSubcommands(locations);
        FindNode(subs, s => LooselyNamed(s, command))
      case Location(location) => GetSubcommand(LoadSpecLocation(location))
      case Fragment(f) => Some(f)
  }

  /** The node `genSubcommand` returns for a matched child. */
  function Resolved(env: Env, child: Node, command: string): (r: Node)
    ensures r.loadSpec.NoLoad?
    ensures child.loadSpec.NoLoad? ==> r == child
    ensures child.loadSpec.Inline? ==> r == Merge(child, Some(child.loadSpec.fragment))
    ensures child.loadSpec.Reference? ==>
              r == Merge(child, GetSubcommand(ImportModule(env, child.loadSpec.key + ".js")))
    ensures child.loadSpec.Generator? && env.run(child.loadSpec.id, command).Fragment? ==>
              r == Merge(child, Some(env.run(child.loadSpec.id, command).node))
    ensures child.loadSpec.Generator? && !env.run(child.loadSpec.id, command).Fragment? ==>
              r == child.(loadSpec := NoLoad)
  {
    if child.loadSpec.NoLoad? then child
    else Merge(child, LoadedPart(env, child, command))
  }

  /**
   * `genSubcommand` on a parent with these children: nothing when no child
   * is named `command`, else the first such child, resolved.
   */
  function ResolveAmong(env: Env, children: seq<Node>, command: string): (r: Option<Node>)
    ensures r.None? <==> forall j :: 0 <= j < |children| ==> !NodeNamed(children[j], command)
    ensures r.Some? ==> r.value.loadSpec.NoLoad?
    ensures r.Some? ==> exists i :: 0 <= i < |children| && FindChild(children, command) == Some(i)
                                    && r.value == Resolved(env, children[i], command)
  {
    if children == [] then None
    else match FindChild(children, command)
      case None => None
      case Some(i) => Some(Resolved(env, children[i], command))
  }

  /** `genSubcommand(command, parent)` as a value. */
  function Resolve(env: Env, parent: Node, command: string): (r: Option<Node>)
    ensures r.None? <==> forall c :: c in Children(parent) ==> !NodeNamed(c, command)
    ensures r.Some? ==> r.value.loadSpec.NoLoad?
  {
    ResolveAmong(env, Children(parent), command)
  }

  /**
   * The children after `genSubcommand`: only the first child named
   * `command` may change, and only when it still had a loader; it becomes
   * the resolved node.
   */
  function Memoize(env: Env, children: seq<Node>, command: string): (r: seq<Node>)
    ensures |r| == |children|
    ensures FindChild(children, command).None? ==> r == children
    ensures FindChild(children, command).Some? ==>
              var i := FindChild(children, command).value;
              && r[i] == ResolveAmong(env, children, command).value
              && forall j :: 0 <= j < |children| && j != i ==> r[j] == children[j]
  {
    match FindChild(children, command)
    case None => children
    case Some(i) =>
      if children[i].loadSpec.NoLoad? then children
      else children[i := Resolved(env, children[i], command)]
  }

  /**
   * A second lookup of the same name finds the stored node, which has no
   * loader left, so it answers the same without loading again; memoising
   * twice is memoising once. This needs the stored node to keep the name
   * (a loaded fragment may rename it).
   */
  lemma {:induction false} SecondLookupHitsMemo(env: Env, children: seq<Node>, command: string)
    requires ResolveAmong(env, children, command).Some?
    requires NodeNamed(ResolveAmong(env, children, command).value, command)
    ensures var memo := Memoize(env, children, command);
            && FindChild(memo, command) == FindChild(children, command)
            && memo[FindChild(children, command).value].loadSpec.NoLoad?
            && ResolveAmong(env, memo, command) == ResolveAmong(env, children, command)
            && Memoize(env, memo, command) == memo
  {
    var memo := Memoize(env, children, command);
    var i := FindChild(children, command).value;
    assert memo[i] == ResolveAmong(env, children, command).value;
    assert forall j :: 0 <= j < i ==> memo[j] == children[j];
  }

  /**
   * A function loader answering with spec locations always memoises safely:
   * the stored node is the child with its loader cleared, so it keeps its
   * name, and a second lookup answers the same without calling the loader.
   */
  lemma LocationLoadersMemoiseSafely(env: Env, children: seq<Node>, command: string, i: nat)
    requires FindChild(children, command) == Some(i)
    requires children[i].loadSpec.Generator?
    requires !env.run(children[i].loadSpec.id, command).Fragment?
    ensures Memoize(env, children, command) == children[i := children[i].(loadSpec := NoLoad)]
    ensures ResolveAmong(env, Memoize(env, children, command), command) == ResolveAmong(env, children, command)
  {
    SecondLookupHitsMemo(env, children, command);
  }

  /** A fragment that renames the child defeats the memo: the second lookup misses. */
  lemma RenamingFragmentDefeatsMemo(env: Env)
    ensures var fragment := Node(Some(Single("y")), None, None, NoArgs, NoLoad);
            var children := [Node(Some(Single("x")), None, None, NoArgs, Inline(fragment))];
            && ResolveAmong(env, children, "x") == Some(fragment)
            && ResolveAmong(env, Memoize(env, children, "x"), "x").None?
  {
    var fragment := Node(Some(Single("y")), None, None, NoArgs, NoLoad);
    var children := [Node(Some(Single("x")), None, None, NoArgs, Inline(fragment))];
    assert NodeNamed(children[0], "x");
    assert FindChild(children, "x") == Some(0);
    assert Memoize(env, children, "x") == [fragment];
    assert !NodeNamed(fragment, "x");
  }

  /**
   * A parent's `subcommands` array, written back in place by
   * `genSubcommand` so that later lookups reuse the resolved child.
   */
  class SubcommandList {
    var entries: array<Node>

    constructor (children: seq<Node>)
      ensures fresh(entries)
      ensures entries[..] == children
    {
      entries := new Node[|children|](i requires 0 <= i < |children| => children[i]);
    }

    /** `genSubcommand(command, parent)`. */
    method GenSubcommand(env: Env, command: string) returns (r: Option<Node>)
      modifies entries
      ensures r == ResolveAmong(env, old(entries[..]), command)
      ensures entries[..] == Memoize(env, old(entries[..]), command)
    {
      if entries.Length == 0 {
        return None;
      }
      var found := FindChild(entries[..], command);
      if found.None? {
        return None;
      }
      var i := found.value;
      var subcommand := entries[i];
      if subcommand.loadSpec.NoLoad? {
        return Some(subcommand);
      }
      entries[i] := Merge(subcommand, LoadedPart(env, subcommand, command));
      return Some(entries[i]);
    }
  }
}
