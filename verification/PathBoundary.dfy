/** Lexical confinement of a requested directory to a root: a depth counter for
    relative paths and a component stack for absolute ones. */
module PathBoundary {
  import opened Wrappers

  /** The components that `std::path::Path` splits a path into. */
  datatype Component = Prefix | RootDir | CurDir | ParentDir | Normal(name: string)

  type Path = seq<Component>

  datatype Boundary = InsideRoot | InsideRootWithParentTraversal | OutsideRoot

  predicate IsAbsolute(path: Path) {
    path != [] && path[0].RootDir?
  }

  /** `Path::join`: an absolute path replaces the one it is joined to. */
  function Joined(root: Path, path: Path): Path {
    if IsAbsolute(path) then path else root + path
  }

  // --------------------------------------------------------- relative paths

  function Names(path: Path): nat {
    if path == [] then 0 else Names(path[..|path| - 1]) + if path[|path| - 1].Normal? then 1 else 0
  }

  function Parents(path: Path): nat {
    if path == [] then 0 else Parents(path[..|path| - 1]) + if path[|path| - 1].ParentDir? then 1 else 0
  }

  /** Some part of the path, read from its start, goes up more often than down. */
  predicate Climbs(path: Path) {
    exists i :: 0 <= i <= |path| && Parents(path[..i]) > Names(path[..i])
  }

  predicate HasAnchor(path: Path) {
    Prefix in path || RootDir in path
  }

  function Relative(requested: Path): Boundary {
    if HasAnchor(requested) || Climbs(requested) then OutsideRoot
    else if ParentDir in requested then InsideRootWithParentTraversal
    else InsideRoot
  }

  lemma CountsStep(path: Path, i: nat)
    requires i < |path|
    ensures Names(path[..i + 1]) == Names(path[..i]) + if path[i].Normal? then 1 else 0
    ensures Parents(path[..i + 1]) == Parents(path[..i]) + if path[i].ParentDir? then 1 else 0
  {
    assert path[..i + 1][..i] == path[..i];
  }

  method RelativeEvidenceDirPathBoundary(requested: Path) returns (b: Boundary)
    ensures b == Relative(requested)
  {
    var depth: nat := 0;
    var hasParentTraversal := false;
    for i := 0 to |requested|
      invariant depth == Names(requested[..i]) - Parents(requested[..i])
      invariant hasParentTraversal == (ParentDir in requested[..i])
      invariant !HasAnchor(requested[..i])
      invariant forall j :: 0 <= j <= i ==> Parents(requested[..j]) <= Names(requested[..j])
    {
      CountsStep(requested, i);
      assert requested[..i + 1] == requested[..i] + [requested[i]];
      match requested[i] {
        case Normal(_) => depth := depth + 1;
        case CurDir =>
        case ParentDir =>
          hasParentTraversal := true;
          if depth == 0 {
            return OutsideRoot;
          }
          depth := depth - 1;
        case Prefix =>
          return OutsideRoot;
        case RootDir =>
          return OutsideRoot;
      }
    }
    assert requested[..|requested|] == requested;
    b := if hasParentTraversal then InsideRootWithParentTraversal else InsideRoot;
  }

  // --------------------------------------------------------- absolute paths

  /** The stack after one more component; the root cannot be left. */
  function Enter(key: seq<string>, component: Component): seq<string> {
    match component
    case Normal(name) => key + [name]
    case ParentDir => if key == [] then [] else key[..|key| - 1]
    case _ => key
  }

  function KeyFrom(base: seq<string>, path: Path): seq<string> {
    if path == [] then base else Enter(KeyFrom(base, path[..|path| - 1]), path[|path| - 1])
  }

  datatype Lexical = Lexical(key: seq<string>, hasParentTraversal: bool)

  function LexicalKey(path: Path): Option<Lexical> {
    if IsAbsolute(path) then Some(Lexical(KeyFrom([], path), ParentDir in path)) else None
  }

  method LexicalAbsolutePathKey(path: Path) returns (r: Option<Lexical>)
    ensures r == LexicalKey(path)
  {
    if !IsAbsolute(path) {
      return None;
    }
    var key: seq<string> := [];
    var anchorLen := 0;
    var hasParentTraversal := false;
    for i := 0 to |path|
      invariant key == KeyFrom([], path[..i])
      invariant hasParentTraversal == (ParentDir in path[..i])
    {
      assert path[..i + 1] == path[..i] + [path[i]];
      match path[i] {
        case Normal(name) => key := key + [name];
        case ParentDir =>
          hasParentTraversal := true;
          if |key| > anchorLen {
            key := key[..|key| - 1];
          }
        case _ =>
      }
    }
    assert path[..|path|] == path;
    return Some(Lexical(key, hasParentTraversal));
  }

  function Absolute(root: Path, requested: Path): Boundary {
    match (LexicalKey(root), LexicalKey(requested))
    case (Some(rootKey), Some(requestedKey)) =>
      if |rootKey.key| > |requestedKey.key|
         || !(forall i :: 0 <= i < |rootKey.key| ==> rootKey.key[i] == requestedKey.key[i]) then OutsideRoot
      else if requestedKey.hasParentTraversal then InsideRootWithParentTraversal
      else InsideRoot
    case _ => OutsideRoot
  }

  function Rank(b: Boundary): nat {
    match b
    case InsideRoot => 0
    case InsideRootWithParentTraversal => 1
    case OutsideRoot => 2
  }

  function BestAbsolute(root: Path, canonicalRoot: Path, requested: Path): (b: Boundary)
    ensures b == Absolute(root, requested) || b == Absolute(canonicalRoot, requested)
    ensures Rank(b) <= Rank(Absolute(root, requested)) && Rank(b) <= Rank(Absolute(canonicalRoot, requested))
  {
    var supplied, canonical := Absolute(root, requested), Absolute(canonicalRoot, requested);
    if Rank(canonical) < Rank(supplied) then canonical else supplied
  }

  function EvidenceDirPathBoundary(root: Path, canonicalRoot: Path, requested: Path): Boundary {
    if IsAbsolute(requested) then BestAbsolute(root, canonicalRoot, requested) else Relative(requested)
  }

  // ------------------------------------------------------------ both checks

  lemma {:induction false} KeyFromConcat(base: seq<string>, a: Path, b: Path)
    ensures KeyFrom(base, a + b) == KeyFrom(KeyFrom(base, a), b)
  {
    if b == [] {
      assert a + b == a;
    } else {
      var n := |b| - 1;
      KeyFromConcat(base, a, b[..n]);
      assert (a + b)[..|a| + n] == a + b[..n];
    }
  }

  /** How many levels a path goes up beyond where it started. */
  function Climb(path: Path): nat {
    if path == [] then 0
    else
      var earlier := Climb(path[..|path| - 1]);
      if path[|path| - 1].ParentDir? && KeyFrom([], path[..|path| - 1]) == [] then earlier + 1 else earlier
  }

  function Less(a: nat, b: nat): nat {
    if a > b then a - b else 0
  }

  /** The stack keeps as much of its base as the path does not climb over, followed
      by what the path leaves when started from nothing. */
  lemma {:induction false} KeyAfterClimb(base: seq<string>, path: Path)
    ensures KeyFrom(base, path) == base[..Less(|base|, Climb(path))] + KeyFrom([], path)
  {
    if path != [] {
      KeyAfterClimb(base, path[..|path| - 1]);
    }
  }

  lemma {:induction false} DepthOfKey(path: Path)
    ensures |KeyFrom([], path)| == Names(path) - Parents(path) + Climb(path)
  {
    if path != [] {
      DepthOfKey(path[..|path| - 1]);
    }
  }

  lemma {:induction false} ExcessIsClimbed(path: Path, i: nat)
    requires i <= |path|
    ensures Parents(path[..i]) - Names(path[..i]) <= Climb(path)
  {
    DepthOfKey(path);
    if i == |path| {
      assert path[..i] == path;
    } else {
      var n := |path| - 1;
      assert path[..n][..i] == path[..i];
      ExcessIsClimbed(path[..n], i);
    }
  }

  lemma {:induction false} ClimbIsReached(path: Path)
    ensures exists i :: 0 <= i <= |path| && Parents(path[..i]) - Names(path[..i]) == Climb(path)
  {
    if path == [] {
      assert path[..0] == [];
    } else {
      var n := |path| - 1;
      DepthOfKey(path);
      assert path[..|path|] == path;
      if Climb(path) == Climb(path[..n]) {
        ClimbIsReached(path[..n]);
        var i :| 0 <= i <= n && Parents(path[..n][..i]) - Names(path[..n][..i]) == Climb(path[..n]);
        assert path[..n][..i] == path[..i];
      }
    }
  }

  /** The depth counter and the stack: where the path ends, and how far it has
      climbed, is the excess of `..` over names at its worst. */
  lemma ClimbIsExcess(path: Path)
    ensures |KeyFrom([], path)| == Names(path) - Parents(path) + Climb(path)
    ensures forall i :: 0 <= i <= |path| ==> Parents(path[..i]) - Names(path[..i]) <= Climb(path)
    ensures exists i :: 0 <= i <= |path| && Parents(path[..i]) - Names(path[..i]) == Climb(path)
  {
    DepthOfKey(path);
    ClimbIsReached(path);
    forall i | 0 <= i <= |path|
      ensures Parents(path[..i]) - Names(path[..i]) <= Climb(path)
    {
      ExcessIsClimbed(path, i);
    }
  }

  lemma ClimbsIffClimb(path: Path)
    ensures Climbs(path) <==> Climb(path) > 0
  {
    ClimbIsExcess(path);
    assert path[..0] == [];
  }

  /** The names that a path resolves to begin with those of a root. */
  predicate IsUnder(root: Path, path: Path) {
    IsAbsolute(root) && IsAbsolute(path) && KeyFrom([], root) <= KeyFrom([], path)
  }

  lemma PassesIffUnder(root: Path, requested: Path)
    ensures Absolute(root, requested)
         == if !IsUnder(root, requested) then OutsideRoot
            else if ParentDir in requested then InsideRootWithParentTraversal
            else InsideRoot
  {
  }

  /** The path comes back down the names of the root that it climbed over. */
  predicate ComesBack(root: Path, p: Path) {
    var base := KeyFrom([], root);
    base[Less(|base|, Climb(p))..] <= KeyFrom([], p)
  }

  lemma UnderIffComesBack(root: Path, p: Path)
    requires IsAbsolute(root)
    ensures IsUnder(root, root + p) <==> ComesBack(root, p)
  {
    var base, kept, left := KeyFrom([], root), Less(|KeyFrom([], root)|, Climb(p)), KeyFrom([], p);
    KeyFromConcat([], root, p);
    KeyAfterClimb(base, p);
    SamePrefix(base[..kept], base[kept..], left);
    assert base == base[..kept] + base[kept..];
  }

  lemma SamePrefix(front: seq<string>, a: seq<string>, b: seq<string>)
    ensures front + a <= front + b <==> a <= b
  {
    if front + a <= front + b {
      assert forall i :: 0 <= i < |a| ==> a[i] == (front + a)[|front| + i] == (front + b)[|front| + i] == b[i];
    }
  }

  /** For every absolute root and every path, climbing or not, the absolute check
      of their join lets the path pass iff after its highest climb it comes back
      down the same names; an absolute path, which is its own join, passes iff it
      lies under the root. */
  lemma AbsoluteIffComesBack(root: Path, p: Path)
    requires IsAbsolute(root)
    ensures Absolute(root, Joined(root, p)) != OutsideRoot <==> if IsAbsolute(p) then IsUnder(root, p) else ComesBack(root, p)
    ensures Absolute(root, Joined(root, p)) == InsideRoot ==> ParentDir !in p
  {
    PassesIffUnder(root, Joined(root, p));
    UnderIffComesBack(root, p);
  }

  /** A path that the relative check accepts is given the same verdict by the
      absolute check of its join with the root iff the root has no `..` of its own
      or the path has one too. */
  lemma VerdictsAgree(root: Path, p: Path)
    requires IsAbsolute(root) && Relative(p) != OutsideRoot
    ensures Absolute(root, Joined(root, p)) != OutsideRoot
    ensures Absolute(root, Joined(root, p)) == Relative(p) <==> ParentDir !in root || ParentDir in p
  {
    assert p != [] ==> p[0] in p;
    ClimbsIffClimb(p);
    UnderIffComesBack(root, p);
    PassesIffUnder(root, root + p);
  }

  /** Whatever the absolute check of a join finds plainly inside, the relative one
      does. */
  lemma InsideIsInside(root: Path, p: Path)
    requires IsAbsolute(root) && !HasAnchor(p) && Absolute(root, Joined(root, p)) == InsideRoot
    ensures Relative(p) == InsideRoot
  {
    AbsoluteIffComesBack(root, p);
    NoParents(p);
    ClimbsIffClimb(p);
  }

  lemma {:induction false} NoParents(path: Path)
    requires ParentDir !in path
    ensures Climb(path) == 0
  {
    if path != [] {
      assert path[|path| - 1] in path;
      NoParents(path[..|path| - 1]);
    }
  }

  /** The checks differ on a path that leaves the root and comes back by its name. */
  lemma ReentryIsToldApart(name: string)
    ensures var root, p := [RootDir, Normal(name)], [ParentDir, Normal(name)];
      Relative(p) == OutsideRoot && Absolute(root, Joined(root, p)) == InsideRootWithParentTraversal
  {
    var root, p := [RootDir, Normal(name)], [ParentDir, Normal(name)];
    assert p[..0] == [] && p[..1] == [ParentDir] && root[..1] == [RootDir] && root[..1][..0] == [];
    assert Climb([ParentDir]) == 1 && Climb(p) == 1;
    assert KeyFrom([], p[..1]) == [] && KeyFrom([], p) == [name];
    assert KeyFrom([], root) == [name];
    ClimbsIffClimb(p);
    UnderIffComesBack(root, p);
    PassesIffUnder(root, root + p);
    assert ParentDir in root + p;
  }

  // ------------------------------------------------------------ the verdict

  /** A request may stay: it resolves to a place under one of the two roots, or, if
      it is relative, never goes up more often than down. */
  predicate MayStay(root: Path, canonicalRoot: Path, requested: Path) {
    if IsAbsolute(requested) then IsUnder(root, requested) || IsUnder(canonicalRoot, requested)
    else !HasAnchor(requested) && !Climbs(requested)
  }

  /** The verdict that the server acts on, for every pair of roots and every
      request. */
  lemma VerdictIsExact(root: Path, canonicalRoot: Path, requested: Path)
    ensures EvidenceDirPathBoundary(root, canonicalRoot, requested)
         == if !MayStay(root, canonicalRoot, requested) then OutsideRoot
            else if ParentDir in requested then InsideRootWithParentTraversal
            else InsideRoot
  {
    if IsAbsolute(requested) {
      PassesIffUnder(root, requested);
      PassesIffUnder(canonicalRoot, requested);
    }
  }

  /** Spelling a relative request out from the root never loses it: it gets the
      same verdict, unless only the root's own `..` shows in it. */
  lemma SpelledOutStays(root: Path, canonicalRoot: Path, p: Path)
    requires IsAbsolute(root) && !IsAbsolute(p)
    ensures var written, spelled := EvidenceDirPathBoundary(root, canonicalRoot, p),
                                    EvidenceDirPathBoundary(root, canonicalRoot, Joined(root, p));
      written != OutsideRoot ==>
        && spelled != OutsideRoot
        && (spelled == written <==> ParentDir !in root || ParentDir in p)
  {
    VerdictIsExact(root, canonicalRoot, p);
    VerdictIsExact(root, canonicalRoot, Joined(root, p));
    if EvidenceDirPathBoundary(root, canonicalRoot, p) != OutsideRoot {
      VerdictsAgree(root, p);
      PassesIffUnder(root, Joined(root, p));
    }
  }

  // ---------------------------------------------------- what the names say

  /** The names in a path, in order. */
  function NamesIn(path: Path): seq<string> {
    if path == [] then []
    else (if path[0].Normal? then [path[0].name] else []) + NamesIn(path[1..])
  }

  lemma {:induction false} KeyIsNames(base: seq<string>, path: Path)
    requires ParentDir !in path
    ensures KeyFrom(base, path) == base + NamesIn(path)
    decreases |path|
  {
    if path == [] {
      assert base + [] == base;
    } else {
      var first, rest := path[..1], path[1..];
      assert path == first + rest && path[0] in path;
      KeyFromConcat(base, first, rest);
      assert first[..0] == [] && KeyFrom(base, first) == Enter(base, path[0]);
      KeyIsNames(Enter(base, path[0]), rest);
      AppendOne(base, if path[0].Normal? then [path[0].name] else [], NamesIn(rest));
    }
  }

  lemma AppendOne(a: seq<string>, b: seq<string>, c: seq<string>)
    ensures a + b + c == a + (b + c)
    ensures a + [] == a
  {
  }

  /** The lexical key of an absolute path without `..` is the names in it. */
  lemma KeyOfPlainPath(path: Path)
    requires IsAbsolute(path) && ParentDir !in path
    ensures LexicalKey(path) == Some(Lexical(NamesIn(path), false))
  {
    KeyIsNames([], path);
    assert [] + NamesIn(path) == NamesIn(path);
  }

  /** Without `..` an absolute request passes an absolute root iff the names of the
      root begin those of the request. */
  lemma PassesIffNamesBegin(root: Path, requested: Path)
    requires IsAbsolute(root) && IsAbsolute(requested) && ParentDir !in root && ParentDir !in requested
    ensures Absolute(root, requested) == if NamesIn(root) <= NamesIn(requested) then InsideRoot else OutsideRoot
  {
    KeyOfPlainPath(root);
    KeyOfPlainPath(requested);
    PassesIffUnder(root, requested);
  }

  /** So the server's verdict on such a request is about the names alone. */
  lemma VerdictByNames(root: Path, canonicalRoot: Path, requested: Path)
    requires IsAbsolute(root) && IsAbsolute(canonicalRoot) && IsAbsolute(requested)
    requires ParentDir !in root && ParentDir !in canonicalRoot && ParentDir !in requested
    ensures EvidenceDirPathBoundary(root, canonicalRoot, requested)
         == if NamesIn(root) <= NamesIn(requested) || NamesIn(canonicalRoot) <= NamesIn(requested) then InsideRoot else OutsideRoot
  {
    PassesIffNamesBegin(root, requested);
    PassesIffNamesBegin(canonicalRoot, requested);
  }

  /** Into a directory and back out. */
  function Detour(name: string): Path {
    [Normal(name), ParentDir]
  }

  lemma DetourComesBack(base: seq<string>, front: Path, name: string)
    ensures KeyFrom(base, front + Detour(name)) == KeyFrom(base, front)
    ensures Climb(front + Detour(name)) == Climb(front)
  {
    var path := front + Detour(name);
    assert path[..|path| - 1] == front + [Normal(name)];
    assert (front + [Normal(name)])[..|front|] == front;
  }

  lemma KeyForgetsDetour(base: seq<string>, front: Path, name: string, back: Path)
    ensures KeyFrom(base, front + Detour(name) + back) == KeyFrom(base, front + back)
  {
    DetourComesBack(base, front, name);
    KeyFromConcat(base, front + Detour(name), back);
    KeyFromConcat(base, front, back);
  }

  /** The last step of a longer path. */
  lemma ClimbStep(path: Path, last: Component)
    ensures Climb(path + [last]) == if last.ParentDir? && KeyFrom([], path) == [] then Climb(path) + 1 else Climb(path)
  {
    assert (path + [last])[..|path|] == path;
  }

  lemma {:induction false} ClimbForgetsDetour(front: Path, name: string, back: Path)
    ensures Climb(front + Detour(name) + back) == Climb(front + back)
  {
    if back == [] {
      assert front + Detour(name) + back == front + Detour(name) && front + back == front;
      DetourComesBack([], front, name);
    } else {
      var rest, last := back[..|back| - 1], back[|back| - 1];
      ClimbForgetsDetour(front, name, rest);
      KeyForgetsDetour([], front, name, rest);
      ClimbStep(front + Detour(name) + rest, last);
      ClimbStep(front + rest, last);
      assert back == rest + [last];
      assert front + Detour(name) + back == front + Detour(name) + rest + [last] && front + back == front + rest + [last];
    }
  }

  /** A detour anywhere in a request, after its root component if it has one,
      does not change whether it is inside. */
  lemma DetourChangesNothing(root: Path, canonicalRoot: Path, front: Path, name: string, back: Path)
    requires IsAbsolute(front + back) ==> front != []
    ensures var long, short := front + Detour(name) + back, front + back;
      EvidenceDirPathBoundary(root, canonicalRoot, long) == OutsideRoot
      <==> EvidenceDirPathBoundary(root, canonicalRoot, short) == OutsideRoot
  {
    var long, short := front + Detour(name) + back, front + back;
    KeyForgetsDetour([], front, name, back);
    ClimbForgetsDetour(front, name, back);
    VerdictIsExact(root, canonicalRoot, long);
    VerdictIsExact(root, canonicalRoot, short);
    ClimbsIffClimb(long);
    ClimbsIffClimb(short);
    SameAnchors(front, name, back);
  }

  lemma SameAnchors(front: Path, name: string, back: Path)
    requires IsAbsolute(front + back) ==> front != []
    ensures var long, short := front + Detour(name) + back, front + back;
      (HasAnchor(long) <==> HasAnchor(short)) && (IsAbsolute(long) <==> IsAbsolute(short))
  {
    assert forall c :: c in front + Detour(name) + back <==> c in front || c == Normal(name) || c == ParentDir || c in back;
    assert forall c :: c in front + back <==> c in front || c in back;
  }

  /** At the root `..` stays there. */
  lemma RootHasNoParent(back: Path)
    ensures KeyFrom([], [RootDir, ParentDir] + back) == KeyFrom([], [RootDir] + back)
  {
    KeyFromConcat([], [RootDir, ParentDir], back);
    KeyFromConcat([], [RootDir], back);
    assert [RootDir, ParentDir][..1] == [RootDir] && [RootDir][..0] == [];
  }

  /** Which check decides: a request that begins at the root is held against the
      roots, which must begin there too; any other one, against itself.  A
      relative request with a prefix or a root in it is outside. */
  lemma FormDecidesTheCheck(root: Path, canonicalRoot: Path, requested: Path)
    ensures (requested == [] || requested[0] != RootDir) ==>
      EvidenceDirPathBoundary(root, canonicalRoot, requested) == Relative(requested)
    ensures requested != [] && requested[0] == RootDir ==>
      EvidenceDirPathBoundary(root, canonicalRoot, requested) == BestAbsolute(root, canonicalRoot, requested)
    ensures (root == [] || root[0] != RootDir) || (requested == [] || requested[0] != RootDir) ==>
      Absolute(root, requested) == OutsideRoot
    ensures Prefix in requested || RootDir in requested ==> Relative(requested) == OutsideRoot
  {
  }
}
