/**
 * The bundled command catalog: the route trie `specSet` built from the
 * command list, the synthetic `rootSpec` listing every plain root command,
 * and loading a root command's grammar module.
 */
module Catalog {
  import opened FigTypes

  /** `s.split("/")` */
  function Split(s: string): (r: seq<string>)
    ensures |r| >= 1
    ensures forall i :: 0 <= i < |r| ==> '/' !in r[i]
    ensures '/' !in s ==> r == [s]
  {
    if s == [] then [[]]
    else
      var rest := Split(s[1..]);
      if s[0] == '/' then [[]] + rest
      else
        assert forall i :: 1 <= i < |rest| ==> ([[s[0]] + rest[0]] + rest[1..])[i] == rest[i];
        assert '/' !in s ==> '/' !in s[1..] && [s[0]] + s[1..] == s;
        [[s[0]] + rest[0]] + rest[1..]
  }

  /** `parts.join(sep)` */
  function Join(parts: seq<string>, sep: char): string {
    if parts == [] then []
    else if |parts| == 1 then parts[0]
    else parts[0] + [sep] + Join(parts[1..], sep)
  }

  /** Splitting on '/' loses nothing: joining the routes gives the name back. */
  lemma {:induction false} SplitJoin(s: string)
    ensures Join(Split(s), '/') == s
  {
    if s != [] {
      var rest := Split(s[1..]);
      SplitJoin(s[1..]);
      if s[0] == '/' {
        assert Split(s)[1..] == rest;
      } else {
        var r := Split(s);
        assert r[0] == [s[0]] + rest[0];
        if |rest| > 1 {
          assert r[1..] == rest[1..];
        }
      }
    }
  }

  /** The file a catalog entry maps to (`/index.js` for versioned commands). */
  function LeafPath(s: string, versioned: seq<string>): (r: string)
    ensures |r| >= |s| + 3 && r[..|s|] == s
    ensures r[|r| - 3..] == ".js"
    ensures s in versioned <==> r[|s|..] == "/index.js"
    ensures s !in versioned ==> r[|s|..] == ".js"
  {
    s + (if s in versioned then "/index.js" else ".js")
  }

  /** The entry reached by following `routes` through the trie, if any. */
  function Lookup(t: map<string, Route>, routes: seq<string>): Option<Route>
    requires |routes| >= 1
    decreases |routes|
  {
    if routes[0] !in t then None
    else if |routes| == 1 then Some(t[routes[0]])
    else match t[routes[0]]
      case Leaf(_) => None
      case Dir(m) => Lookup(m, routes[1..])
  }

  /** A proper prefix of `routes` already leads to a string leaf. */
  predicate Blocked(t: map<string, Route>, routes: seq<string>)
    requires |routes| >= 1
    decreases |routes|
  {
    |routes| > 1 && routes[0] in t &&
    match t[routes[0]]
    case Leaf(_) => true
    case Dir(m) => Blocked(m, routes[1..])
  }

  /**
   * One pass of the inner `forEach` over a command's routes: walk (creating
   * empty objects) down to the last route and assign the leaf there; a string
   * met on the way stops the walk and nothing is written.
   */
  function Insert(t: map<string, Route>, routes: seq<string>, leaf: string): (r: map<string, Route>)
    requires |routes| >= 1
    ensures routes[0] in r
    ensures forall k :: k != routes[0] ==> (k in r <==> k in t)
    ensures forall k :: k != routes[0] && k in t ==> r[k] == t[k]
    ensures |routes| == 1 ==> r[routes[0]] == Leaf(leaf)
    decreases |routes|
  {
    var head := routes[0];
    if |routes| == 1 then t[head := Leaf(leaf)]
    else if head in t then
      match t[head]
      // every leaf written is a `LeafPath` (never empty), so the `|| {}` of the
      // walk never replaces a string: a string always blocks
      case Leaf(_) => t
      case Dir(m) => t[head := Dir(Insert(m, routes[1..], leaf))]
    else t[head := Dir(Insert(map[], routes[1..], leaf))]
  }

  /**
   * A leaf assignment lands where `routes` leads (overwriting what was
   * there), unless a string at an intermediate route blocks it, in which case
   * the trie is unchanged.
   */
  lemma {:induction false} InsertThenLookup(t: map<string, Route>, routes: seq<string>, leaf: string)
    requires |routes| >= 1
    ensures Blocked(t, routes) ==> Insert(t, routes, leaf) == t
    ensures !Blocked(t, routes) ==> Lookup(Insert(t, routes, leaf), routes) == Some(Leaf(leaf))
    decreases |routes|
  {
    var head := routes[0];
    if |routes| > 1 {
      if head in t {
        match t[head]
        case Leaf(_) =>
        case Dir(m) =>
          InsertThenLookup(m, routes[1..], leaf);
          if Blocked(t, routes) {
            assert t[head := Dir(m)] == t;
          }
      } else {
        InsertThenLookup(map[], routes[1..], leaf);
      }
    }
  }

  /** The trie after the outer `forEach` has processed every entry of `speclist`. */
  function SpecSetOf(speclist: seq<string>, versioned: seq<string>): (r: map<string, Route>)
    ensures forall s :: s in speclist ==> Split(s)[0] in r
    ensures forall k :: k in r ==> exists s :: s in speclist && Split(s)[0] == k
    decreases |speclist|
  {
    if speclist == [] then map[]
    else
      var init := speclist[..|speclist| - 1];
      var last := speclist[|speclist| - 1];
      var prev := SpecSetOf(init, versioned);
      var r := Insert(prev, Split(last), LeafPath(last, versioned));
      assert speclist == init + [last];
      assert forall k :: k in r ==> exists s :: s in speclist && Split(s)[0] == k by {
        forall k | k in r ensures exists s :: s in speclist && Split(s)[0] == k {
          if k == Split(last)[0] {
            assert last in speclist;
          } else {
            var s :| s in init && Split(s)[0] == k;
            assert s in speclist;
          }
        }
      }
      assert forall s :: s in speclist ==> Split(s)[0] in r by {
        forall s | s in speclist ensures Split(s)[0] in r {
          if s != last {
            assert s in init;
          }
        }
      }
      r
  }

  /** The module-level loop that builds `specSet`. */
  method BuildSpecSet(speclist: seq<string>, versioned: seq<string>) returns (specSet: map<string, Route>)
    ensures specSet == SpecSetOf(speclist, versioned)
  {
    specSet := map[];
    for i := 0 to |speclist|
      invariant specSet == SpecSetOf(speclist[..i], versioned)
    {
      var s := speclist[i];
      specSet := Insert(specSet, Split(s), LeafPath(s, versioned));
      assert speclist[..i + 1][..i] == speclist[..i];
    }
    assert speclist[..|speclist|] == speclist;
  }

  /**
   * Every command without '/' ends up as a leaf naming its own module file:
   * a later deeper entry under it is blocked, and an earlier one is overwritten.
   */
  lemma {:induction false} PlainNamesAreLeaves(speclist: seq<string>, versioned: seq<string>, s: string)
    requires s in speclist && '/' !in s
    ensures s in SpecSetOf(speclist, versioned)
    ensures SpecSetOf(speclist, versioned)[s] == Leaf(LeafPath(s, versioned))
    decreases |speclist|
  {
    var init := speclist[..|speclist| - 1];
    var last := speclist[|speclist| - 1];
    var routes := Split(last);
    var prev := SpecSetOf(init, versioned);
    if last == s {
      assert routes == [s];
    } else {
      assert speclist == init + [last];
      assert s in init;
      PlainNamesAreLeaves(init, versioned, s);
      if routes[0] == s {
        if |routes| == 1 {
          SplitJoin(last);
          assert false;
        }
        assert Blocked(prev, routes);
        InsertThenLookup(prev, routes, LeafPath(last, versioned));
      }
    }
  }

  /** A root-list entry is a name without '/' (subdirectory) or '@' (version). */
  predicate IsPlain(s: string) {
    '/' !in s && '@' !in s
  }

  /** The `rootSpec` child for command `s`: named `s`, loaded from key `s`. */
  function RootEntry(s: string): Node {
    Node(Some(Single(s)), None, None, NoArgs, Reference(s))
  }

  /** The children of `rootSpec`: one entry per plain command, in catalog order. */
  function RootChildren(speclist: seq<string>): (r: seq<Node>)
    ensures |r| <= |speclist|
    ensures forall s :: RootEntry(s) in r <==> s in speclist && IsPlain(s)
    ensures forall c :: c in r ==> exists s :: c == RootEntry(s)
  {
    if speclist == [] then []
    else if IsPlain(speclist[0]) then [RootEntry(speclist[0])] + RootChildren(speclist[1..])
    else RootChildren(speclist[1..])
  }

  /** `rootSpec`, the grammar used to complete the command name itself. */
  function RootSpec(speclist: seq<string>): (r: Node)
    ensures r.loadSpec.NoLoad? && r.name == Some(Single("root"))
    ensures forall s :: RootEntry(s) in Children(r) <==> s in speclist && IsPlain(s)
  {
    Node(Some(Single("root")), Some(RootChildren(speclist)), None, NoArgs, NoLoad)
  }

  /** The module path an entry names; a nested object is interpolated as text. */
  function ModulePath(route: Route): (r: string)
    ensures route.Leaf? ==> r == route.path
    ensures r != "" <==> Truthy(route)
  {
    match route
    case Leaf(p) => p
    case Dir(_) => "[object Object]"
  }

  /** Whether `specSet[key]` is truthy (a non-empty string or an object). */
  function Truthy(route: Route): (r: bool)
    ensures r <==> route != Leaf("")
  {
    route.Dir? || route.path != ""
  }

  /** The default export of the bundled module at `path`. */
  function ImportModule(env: Env, path: string): (r: Option<Spec>)
    ensures r.Some? <==> path in env.modules
  {
    if path in env.modules then Some(env.modules[path]) else None
  }

  /** The grammar for root command `key`, read fresh from the catalog. */
  function ImportRoot(env: Env, key: string): (r: Option<Spec>)
    ensures r.Some? ==> key in env.specSet
  {
    if key in env.specSet && Truthy(env.specSet[key]) then ImportModule(env, ModulePath(env.specSet[key]))
    else None
  }

  /**
   * `loadSpec` without its cache: nothing unless the first token is
   * complete; otherwise the grammar the catalog has for its text.
   */
  function LoadRootSpec(env: Env, tokens: seq<Token>): (r: Option<Spec>)
    ensures tokens == [] || !tokens[0].complete ==> r.None?
    ensures r.Some? ==> tokens[0].text in env.specSet
  {
    if tokens == [] || !tokens[0].complete then None
    else ImportRoot(env, tokens[0].text)
  }

  /** With the trie built from the catalog, a plain command loads its own file. */
  lemma PlainCommandLoadsItsFile(env: Env, speclist: seq<string>, versioned: seq<string>, s: string)
    requires env.specSet == SpecSetOf(speclist, versioned)
    requires s in speclist && '/' !in s
    ensures ImportRoot(env, s) == ImportModule(env, LeafPath(s, versioned))
  {
    PlainNamesAreLeaves(speclist, versioned, s);
  }
}
