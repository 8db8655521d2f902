/**
 The flattened superclass tables of tolua++ (tolua_map.c, tolua_is.c) against the inheritance
 graph.  A metatable is named by the type name it is registered under.
 */
module ToluaSuper {

  /** "const " with the name behind it, cut at 120 characters (tolua_map.c:470-471). */
  function Const(name: string): string {
    "const " + if |name| <= 120 then name else name[..120]
  }

  /** The first 120 characters. */
  function Cut(name: string): string {
    if |name| <= 120 then name else name[..120]
  }

  /** Two names have the same const form exactly if they agree in the first 120 characters; it is 6 characters
      longer than these. */
  lemma ConstCollides(x: string, y: string)
    ensures Const(x) == Const(y) <==> Cut(x) == Cut(y)
    ensures |Const(x)| == 6 + |Cut(x)| && Const(x)[..6] == "const "
  {
    assert Const(x)[6..] == Cut(x) && Const(y)[6..] == Cut(y);
  }

  const COMMON_CLASS := "tolua_commonclass"

  /** The names that an empty base leads to: "" and "const ". */
  predicate Pseudo(name: string) {
    name == "" || name == Const("")
  }

  lemma ConstIsReal(name: string)
    requires name != ""
    ensures !Pseudo(Const(name)) && Const(name) != COMMON_CLASS
  {
    assert |Const(name)| > |Const("")|;
    assert Const(name)[0] == 'c' && COMMON_CLASS[0] == 't';
  }

  // ----- The inheritance graph -----

  type Bases = set<(string, string)>

  /** The classes and the (class, base) pairs given to tolua_cclass and tolua_addbase. */
  datatype Graph = Graph(classes: set<string>, bases: Bases)

  /** A name whose two metatables have names of their own. */
  predicate OwnName(t: string) {
    !Pseudo(t) && t != COMMON_CLASS && t != Const(t)
  }

  predicate Apart(t: string, u: string) {
    t != Const(u) && u != Const(t) && Const(t) != Const(u)
  }

  /** The class can be registered beside the others: no two metatables get the same name. */
  ghost predicate Compatible(g: Graph, t: string) {
    OwnName(t) && forall u | u in g.classes && u != t :: Apart(t, u)
  }

  ghost predicate WellFormed(g: Graph) {
    && (forall t | t in g.classes :: OwnName(t))
    && (forall t, u | t in g.classes && u in g.classes && t != u :: Apart(t, u))
    && (forall t, b | (t, b) in g.bases :: t in g.classes && b in g.classes)
  }

  /** T is a const T; T is a B and const T is a const B for every base B of T. */
  ghost predicate Edge(g: Graph, x: string, y: string) {
    || (x in g.classes && y == Const(x))
    || (x, y) in g.bases
    || exists t, b :: (t, b) in g.bases && x == Const(t) && y == Const(b)
  }

  ghost predicate Path(g: Graph, p: seq<string>) {
    |p| >= 2 && forall i | 1 <= i < |p| :: Edge(g, p[i - 1], p[i])
  }

  ghost predicate Reaches(g: Graph, x: string, y: string) {
    exists p :: Path(g, p) && p[0] == x && p[|p| - 1] == y
  }

  lemma ReachesEdge(g: Graph, x: string, y: string, z: string)
    requires Edge(g, x, y) && (y == z || Reaches(g, y, z))
    ensures Reaches(g, x, z)
  {
    if y == z {
      assert Path(g, [x, z]);
    } else {
      var p :| Path(g, p) && p[0] == y && p[|p| - 1] == z;
      assert Path(g, [x] + p);
      assert ([x] + p)[|p|] == z;
    }
  }

  lemma LastEdge(g: Graph, x: string, y: string)
    requires Reaches(g, x, y)
    ensures exists z :: Edge(g, z, y) && (x == z || Reaches(g, x, z))
  {
    var p :| Path(g, p) && p[0] == x && p[|p| - 1] == y;
    var z := p[|p| - 2];
    assert Edge(g, z, y);
    if |p| > 2 {
      assert Path(g, p[..|p| - 1]);
      assert p[..|p| - 1][|p| - 2] == z;
    }
  }

  lemma ReachesMore(g: Graph, h: Graph, x: string, y: string)
    requires g.classes <= h.classes && g.bases <= h.bases && Reaches(g, x, y)
    ensures Reaches(h, x, y)
  {
    var p :| Path(g, p) && p[0] == x && p[|p| - 1] == y;
    forall i | 1 <= i < |p|
      ensures Edge(h, p[i - 1], p[i])
    {
      assert Edge(g, p[i - 1], p[i]);
    }
    assert Path(h, p);
  }

  // ----- The tables -----

  type Tables = map<string, set<string>>

  function SuperOf(super: Tables, x: string): set<string> {
    if x in super then super[x] else {}
  }

  /** What mapsuper makes of the tables. */
  function MapSuper(super: Tables, name: string, base: string): Tables {
    super[name := SuperOf(super, name) + {base} + SuperOf(super, base)]
  }

  ghost predicate Sound(super: Tables, g: Graph) {
    forall x, y | y in SuperOf(super, x) && !Pseudo(y) :: Reaches(g, x, y)
  }

  ghost predicate Above(super: Tables, x: string, y: string) {
    y in SuperOf(super, x) && forall z | z in SuperOf(super, y) && !Pseudo(z) :: z in SuperOf(super, x)
  }

  ghost predicate Closed(super: Tables, g: Graph) {
    forall x, y | Edge(g, x, y) :: Above(super, x, y)
  }

  ghost predicate Acyclic(super: Tables) {
    forall x :: x !in SuperOf(super, x)
  }

  ghost predicate Agree(super: Tables, g: Graph) {
    Sound(super, g) && Closed(super, g) && Acyclic(super)
  }

  lemma {:induction false} PathInTable(super: Tables, g: Graph, p: seq<string>)
    requires Closed(super, g) && Path(g, p) && !Pseudo(p[|p| - 1])
    ensures p[|p| - 1] in SuperOf(super, p[0])
  {
    assert Edge(g, p[0], p[1]);
    if |p| > 2 {
      forall i | 1 <= i < |p[1..]|
        ensures Edge(g, p[1..][i - 1], p[1..][i])
      {
        assert Edge(g, p[i + 1 - 1], p[i + 1]);
      }
      PathInTable(super, g, p[1..]);
      assert Above(super, p[0], p[1]);
    }
  }

  /** The table of a name holds exactly the names it reaches in the graph. */
  lemma TableIsReachability(super: Tables, g: Graph, x: string, y: string)
    requires Agree(super, g) && !Pseudo(y)
    ensures y in SuperOf(super, x) <==> Reaches(g, x, y)
  {
    if Reaches(g, x, y) {
      var p :| Path(g, p) && p[0] == x && p[|p| - 1] == y;
      PathInTable(super, g, p);
    }
  }

  lemma ReachesTrans(g: Graph, x: string, y: string, z: string)
    requires Reaches(g, x, y) && Reaches(g, y, z)
    ensures Reaches(g, x, z)
  {
    var p :| Path(g, p) && p[0] == x && p[|p| - 1] == y;
    var q :| Path(g, q) && q[0] == y && q[|q| - 1] == z;
    var r := p + q[1..];
    forall i | 1 <= i < |r|
      ensures Edge(g, r[i - 1], r[i])
    {
      if i < |p| {
        assert Edge(g, p[i - 1], p[i]);
      } else {
        assert Edge(g, q[i - |p| + 1 - 1], q[i - |p| + 1]);
      }
    }
    assert Path(g, r) && r[|r| - 1] == z;
  }

  /** Reachability has no cycle: of two classes only one can be the more derived one. */
  lemma NoCycle(super: Tables, g: Graph, x: string, y: string)
    requires Agree(super, g) && !Pseudo(x) && Reaches(g, x, y)
    ensures x != y && !Reaches(g, y, x)
  {
    if x == y || Reaches(g, y, x) {
      if x != y {
        ReachesTrans(g, x, y, x);
      }
      TableIsReachability(super, g, x, x);
      assert false;
    }
  }

  // ----- What the registration calls keep -----

  lemma NewClassAgrees(super: Tables, g: Graph, t: string)
    requires WellFormed(g) && Agree(super, g) && Compatible(g, t) && t !in g.classes
    requires t !in super && Const(t) !in super
    ensures WellFormed(Graph(g.classes + {t}, g.bases))
    ensures Agree(MapSuper(super, t, Const(t)), Graph(g.classes + {t}, g.bases))
  {
    var h := Graph(g.classes + {t}, g.bases);
    var super' := MapSuper(super, t, Const(t));
    assert super'[t] == {Const(t)};
    forall x, y | y in SuperOf(super', x) && !Pseudo(y)
      ensures Reaches(h, x, y)
    {
      if x == t {
        ReachesEdge(h, t, y, y);
      } else {
        ReachesMore(g, h, x, y);
      }
    }
    forall x, y | Edge(h, x, y)
      ensures Above(super', x, y)
    {
      if x != t {
        assert Edge(g, x, y);
        assert Above(super, x, y);
        NoEdgeTo(g, x, t);
      }
    }
    assert forall x | x != t :: SuperOf(super', x) == SuperOf(super, x);
  }

  /** Edges lead to classes and to const forms of classes. */
  lemma NoEdgeTo(g: Graph, x: string, t: string)
    requires WellFormed(g) && t !in g.classes && forall u | u in g.classes :: t != Const(u)
    ensures !Edge(g, x, t)
  {
  }

  lemma Names(g: Graph, t: string)
    requires WellFormed(g) && t in g.classes
    ensures OwnName(t) && !Pseudo(Const(t)) && Const(t) != COMMON_CLASS
    ensures forall u | u in g.classes :: t != Const(u) && u != Const(t) && (Const(u) == Const(t) ==> u == t)
  {
    ConstIsReal(t);
    forall u | u in g.classes
      ensures t != Const(u) && u != Const(t) && (Const(u) == Const(t) ==> u == t)
    {
      assert if u == t then OwnName(u) else Apart(t, u);
    }
  }

  /** A class is only reached along a base. */
  lemma EdgeToClass(g: Graph, x: string, y: string)
    requires WellFormed(g) && Edge(g, x, y) && y in g.classes
    ensures (x, y) in g.bases && x in g.classes
  {
    Names(g, y);
  }

  /** A const form is reached from its class or along a base. */
  lemma EdgeToConst(g: Graph, x: string, t: string)
    requires WellFormed(g) && Edge(g, x, Const(t)) && t in g.classes
    ensures x == t || exists s :: (s, t) in g.bases && x == Const(s)
  {
    Names(g, t);
  }

  /** A const form leads to const forms, along a base. */
  lemma EdgeFromConst(g: Graph, t: string, y: string) returns (b: string)
    requires WellFormed(g) && Edge(g, Const(t), y) && t in g.classes
    ensures (t, b) in g.bases && y == Const(b)
  {
    Names(g, t);
    var s;
    s, b :| (s, b) in g.bases && Const(t) == Const(s) && y == Const(b);
  }

  // ----- Which further bases keep the tables right -----

  lemma {:induction false} ClassPath(g: Graph, p: seq<string>, i: nat)
    requires WellFormed(g) && Path(g, p) && p[|p| - 1] in g.classes && i < |p|
    ensures p[i] in g.classes && (i + 1 < |p| ==> (p[i], p[i + 1]) in g.bases)
    decreases |p| - i
  {
    if i + 1 < |p| {
      ClassPath(g, p, i + 1);
      assert Edge(g, p[i + 1 - 1], p[i + 1]);
      EdgeToClass(g, p[i], p[i + 1]);
    }
  }

  /** The const forms reach each other like the classes. */
  lemma ConstReaches(g: Graph, x: string, y: string)
    requires WellFormed(g) && y in g.classes && Reaches(g, x, y)
    ensures x in g.classes && Reaches(g, Const(x), Const(y))
  {
    var p :| Path(g, p) && p[0] == x && p[|p| - 1] == y;
    var q := seq(|p|, i requires 0 <= i < |p| => Const(p[i]));
    forall i | 1 <= i < |q|
      ensures Edge(g, q[i - 1], q[i])
    {
      ClassPath(g, p, i - 1);
    }
    ClassPath(g, p, 0);
    assert Path(g, q) && q[0] == Const(x) && q[|q| - 1] == Const(y);
  }

  lemma {:induction false} UnconstPath(g: Graph, p: seq<string>, x: string, y: string)
    requires WellFormed(g) && x in g.classes && y in g.classes
    requires Path(g, p) && p[0] == Const(x) && p[|p| - 1] == Const(y)
    ensures Reaches(g, x, y)
    decreases |p|
  {
    assert Edge(g, p[0], p[1]);
    var b := EdgeFromConst(g, x, p[1]);
    if |p| == 2 {
      assert b == y by {
        assert b != y ==> Apart(b, y);
      }
    } else {
      forall i | 1 <= i < |p[1..]|
        ensures Edge(g, p[1..][i - 1], p[1..][i])
      {
        assert Edge(g, p[i + 1 - 1], p[i + 1]);
      }
      UnconstPath(g, p[1..], b, y);
    }
    ReachesEdge(g, x, b, y);
  }

  lemma UnconstReaches(g: Graph, x: string, y: string)
    requires WellFormed(g) && x in g.classes && y in g.classes && Reaches(g, Const(x), Const(y))
    ensures Reaches(g, x, y)
  {
    var p :| Path(g, p) && p[0] == Const(x) && p[|p| - 1] == Const(y);
    UnconstPath(g, p, x, y);
  }

  /** The two calls of mapsuper in tolua_cclass and tolua_addbase. */
  function LinkBase(super: Tables, name: string, base: string): Tables {
    MapSuper(MapSuper(super, Const(name), Const(base)), name, base)
  }

  function AddBase(g: Graph, name: string, base: string): Graph {
    if base == "" then g else Graph(g.classes, g.bases + {(name, base)})
  }

  /** Every class derived from `name` so far is derived from `base` as well, and no cycle arises. */
  ghost predicate Admits(g: Graph, name: string, base: string) {
    base != name && !Reaches(g, base, name) && forall x | (x, name) in g.bases :: Reaches(g, x, base)
  }

  lemma NoEdgeToPseudo(g: Graph, x: string, y: string)
    requires WellFormed(g) && Pseudo(y)
    ensures !Edge(g, x, y)
  {
    forall u | u in g.classes
      ensures y != Const(u) && y != u
    {
      assert OwnName(u);
      ConstIsReal(u);
    }
    NoEdgeTo(g, x, y);
  }

  /** With no base only the two pseudo-names are entered. */
  lemma NoBaseAgrees(super: Tables, g: Graph, name: string)
    requires WellFormed(g) && Agree(super, g) && name in g.classes
    requires "" !in super && Const("") !in super
    ensures Agree(LinkBase(super, name, ""), g)
  {
    var super' := LinkBase(super, name, "");
    ConstIsReal(name);
    assert OwnName(name);
    assert SuperOf(super', name) == SuperOf(super, name) + {""};
    assert SuperOf(super', Const(name)) == SuperOf(super, Const(name)) + {Const("")};
    assert forall x, y | !Pseudo(y) :: y in SuperOf(super', x) <==> y in SuperOf(super, x);
    forall x, y | Edge(g, x, y)
      ensures Above(super', x, y)
    {
      assert Above(super, x, y);
      if Pseudo(y) {
        NoEdgeToPseudo(g, x, y);
        assert false;
      }
    }
  }

  lemma LinkedTables(super: Tables, g: Graph, name: string, base: string)
    requires WellFormed(g) && name in g.classes && base in g.classes && name != base
    ensures var super' := LinkBase(super, name, base);
            && SuperOf(super', name) == SuperOf(super, name) + {base} + SuperOf(super, base)
            && SuperOf(super', Const(name)) == SuperOf(super, Const(name)) + {Const(base)} + SuperOf(super, Const(base))
            && forall x | x != name && x != Const(name) :: SuperOf(super', x) == SuperOf(super, x)
  {
    assert OwnName(name) && Apart(name, base);
  }

  lemma BaseClosed(super: Tables, g: Graph, name: string, base: string)
    requires WellFormed(g) && Agree(super, g) && name in g.classes && base in g.classes && Admits(g, name, base)
    ensures Closed(LinkBase(super, name, base), AddBase(g, name, base))
  {
    var cname, cbase := Const(name), Const(base);
    var h := AddBase(g, name, base);
    var super' := LinkBase(super, name, base);
    LinkedTables(super, g, name, base);
    assert OwnName(name) && OwnName(base) && Apart(name, base);
    forall x, y | Edge(h, x, y)
      ensures Above(super', x, y)
    {
      if (x, y) != (name, base) && (x, y) != (cname, cbase) {
        assert Edge(g, x, y);
        assert Above(super, x, y);
        if y == name {
          EdgeToClass(g, x, name);
          BelowBase(super, g, x, base);
        } else if y == cname && x == name {
          assert Edge(g, base, cbase);
          assert Above(super, base, cbase);
        } else if y == cname {
          EdgeToConst(g, x, name);
          var s :| (s, name) in g.bases && x == Const(s);
          ConstReaches(g, s, base);
          BelowBase(super, g, x, cbase);
        }
      }
    }
  }

  /** What reaches a name has all of its table. */
  lemma BelowBase(super: Tables, g: Graph, x: string, base: string)
    requires Agree(super, g) && Reaches(g, x, base) && !Pseudo(base)
    ensures Above(super, x, base)
  {
    TableIsReachability(super, g, x, base);
    forall z | z in SuperOf(super, base) && !Pseudo(z)
      ensures z in SuperOf(super, x)
    {
      ReachesTrans(g, x, base, z);
      TableIsReachability(super, g, x, z);
    }
  }

  lemma BaseSound(super: Tables, g: Graph, name: string, base: string)
    requires WellFormed(g) && Agree(super, g) && name in g.classes && base in g.classes && name != base
    ensures Sound(LinkBase(super, name, base), AddBase(g, name, base))
  {
    var cname, cbase := Const(name), Const(base);
    var h := AddBase(g, name, base);
    var super' := LinkBase(super, name, base);
    LinkedTables(super, g, name, base);
    assert OwnName(base);
    assert Edge(h, name, base) && Edge(h, cname, cbase);
    forall x, y | y in SuperOf(super', x) && !Pseudo(y)
      ensures Reaches(h, x, y)
    {
      if y in SuperOf(super, x) {
        ReachesMore(g, h, x, y);
      } else if x == name {
        if y != base {
          ReachesMore(g, h, base, y);
        }
        ReachesEdge(h, name, base, y);
      } else {
        if y != cbase {
          ReachesMore(g, h, cbase, y);
        }
        ReachesEdge(h, cname, cbase, y);
      }
    }
  }

  lemma BaseAcyclic(super: Tables, g: Graph, name: string, base: string)
    requires WellFormed(g) && Agree(super, g) && name in g.classes && base in g.classes && name != base
    requires !Reaches(g, base, name)
    ensures Acyclic(LinkBase(super, name, base))
  {
    var cname, cbase := Const(name), Const(base);
    LinkedTables(super, g, name, base);
    assert OwnName(name) && Apart(name, base);
    ConstIsReal(name);
    if Reaches(g, cbase, cname) {
      UnconstReaches(g, base, name);
    }
    TableIsReachability(super, g, base, name);
    TableIsReachability(super, g, cbase, cname);
  }

  /** A base that a class gets after another class was derived from it does not reach the table of that
      other class. */
  lemma LateBaseIsMissed(super: Tables, g: Graph, name: string, base: string, t: string)
    requires WellFormed(g) && Agree(super, g) && name in g.classes && base in g.classes && name != base
    requires t in g.classes && Reaches(g, t, name) && base !in SuperOf(super, t)
    ensures Reaches(AddBase(g, name, base), t, base)
    ensures base !in SuperOf(LinkBase(super, name, base), t)
  {
    var h := AddBase(g, name, base);
    assert OwnName(name) && OwnName(t);
    ReachesMore(g, h, t, name);
    assert Edge(h, name, base);
    ReachesEdge(h, name, base, base);
    ReachesTrans(h, t, name, base);
    NoCycle(super, g, t, name);
    assert Apart(t, name);
    LinkedTables(super, g, name, base);
  }

  lemma NotReached(g: Graph, x: string, name: string)
    requires WellFormed(g) && name in g.classes && forall z :: (z, name) !in g.bases
    ensures !Reaches(g, x, name)
  {
    if Reaches(g, x, name) {
      LastEdge(g, x, name);
      var z :| Edge(g, z, name);
      EdgeToClass(g, z, name);
      assert false;
    }
  }

  /** A class that nothing is derived from yet admits every other class as a base. */
  lemma LeafAdmits(g: Graph, name: string, base: string)
    requires WellFormed(g) && name in g.classes && name != base && forall x :: (x, name) !in g.bases
    ensures Admits(g, name, base)
  {
    NotReached(g, base, name);
  }

  /** After the two calls the tables agree with the graph that has the new edges, exactly if the graph
      admitted the base. */
  lemma BaseAgrees(super: Tables, g: Graph, name: string, base: string)
    requires WellFormed(g) && Agree(super, g) && name in g.classes && base in g.classes
    ensures Agree(LinkBase(super, name, base), AddBase(g, name, base)) <==> Admits(g, name, base)
  {
    var h := AddBase(g, name, base);
    var super' := LinkBase(super, name, base);
    assert OwnName(name) && OwnName(base);
    if Admits(g, name, base) {
      BaseSound(super, g, name, base);
      BaseClosed(super, g, name, base);
      BaseAcyclic(super, g, name, base);
    } else if base == name {
      assert name in SuperOf(super', name);
    } else if Reaches(g, base, name) {
      if Agree(super', h) {
        ReachesMore(g, h, base, name);
        assert Edge(h, name, base);
        ReachesEdge(h, name, base, name);
        NoCycle(super', h, name, name);
      }
    } else {
      var x :| (x, name) in g.bases && !Reaches(g, x, base);
      TableIsReachability(super, g, x, base);
      ReachesEdge(g, x, name, name);
      LateBaseIsMissed(super, g, name, base, x);
      if Agree(super', h) {
        TableIsReachability(super', h, x, base);
        assert false;
      }
    }
  }
}
