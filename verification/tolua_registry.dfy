/**
 The registry that tolua++ fills while classes are registered, and the userdata cache that it
 keeps for C++ pointers (tolua_map.c, tolua_push.c, tolua_is.c).  Lua tables are maps; tables that
 are shared are objects.
 */
module ToluaRegistry {
  import opened ToluaSuper

  type Pointer = nat
  const NULL: Pointer := 0

  class Userdata {
    const value: Pointer
    var metatable: string

    constructor (value: Pointer, metatable: string)
      ensures this.value == value && this.metatable == metatable
    {
      this.value := value;
      this.metatable := metatable;
    }
  }

  /** A "tolua_ubox" table: the userdata of every pointer pushed so far. */
  class Ubox {
    var cached: map<Pointer, Userdata>

    constructor ()
      ensures cached == map[]
    {
      cached := map[];
    }
  }

  // ----- Caches along the bases given to tolua_cclass -----

  ghost predicate SharedCache(parent: map<string, string>, ubox: map<string, Ubox>, t: string)
    requires t in parent
  {
    && t in ubox && Const(t) in ubox && ubox[Const(t)] == ubox[t]
    && (parent[t] != COMMON_CLASS ==> parent[t] in ubox && ubox[t] == ubox[parent[t]])
  }

  ghost predicate ParentIsBase(parent: map<string, string>, g: Graph, t: string)
    requires t in parent
  {
    parent[t] != COMMON_CLASS ==> (t, parent[t]) in g.bases
  }

  ghost predicate Sharing(parent: map<string, string>, ubox: map<string, Ubox>, g: Graph) {
    forall t | t in g.classes && t in parent :: SharedCache(parent, ubox, t) && ParentIsBase(parent, g, t)
  }

  /** What the two calls of mapinheritance in tolua_cclass make of the metatables of the metatables. */
  function NewParent(parent: map<string, string>, name: string, base: string): map<string, string> {
    if base == "" && name in parent then parent[Const(name) := name]
    else parent[name := if base == "" then COMMON_CLASS else base][Const(name) := name]
  }

  /** The base has a cache, and it is that of the classes below `name`; without a base, `name` keeps the cache it
      has, or nothing is below it. */
  ghost predicate CacheFits(parent: map<string, string>, ubox: map<string, Ubox>, g: Graph, name: string,
          base: string)
  {
    if base == "" then
      name in parent || forall t | t in g.classes && t in parent :: parent[t] != name
    else
      base == name ||
      (&& base in ubox
       && forall t | t in g.classes && t in parent && t in ubox && t != name && parent[t] == name ::
            ubox[t] == ubox[base])
  }

  /** Where the class gets its cache from: the base, what it has already, or a new table. */
  ghost predicate NewBox(parent: map<string, string>, ubox: map<string, Ubox>, name: string, base: string, box: Ubox) {
    if base != "" && base in ubox then box == ubox[base]
    else if base == "" && name in parent then name in ubox && box == ubox[name]
    else forall t | t in ubox :: box != ubox[t]
  }

  /** After tolua_cclass every class has the cache of its base still, exactly if the cache of the new base fits. */
  lemma SharingIff(parent: map<string, string>, ubox: map<string, Ubox>, g: Graph, name: string, base: string,
          box: Ubox)
    requires WellFormed(g) && name in g.classes && (base == "" || base in g.classes)
    requires Sharing(parent, ubox, g) && NewBox(parent, ubox, name, base, box)
    ensures Sharing(NewParent(parent, name, base), ubox[name := box][Const(name) := box], AddBase(g, name, base))
       <==> CacheFits(parent, ubox, g, name, base)
  {
    if CacheFits(parent, ubox, g, name, base) {
      SharingKept(parent, ubox, g, name, base, box);
    } else {
      SharingLost(parent, ubox, g, name, base, box);
    }
  }

  lemma SharingKept(parent: map<string, string>, ubox: map<string, Ubox>, g: Graph, name: string, base: string,
          box: Ubox)
    requires WellFormed(g) && name in g.classes && (base == "" || base in g.classes)
    requires Sharing(parent, ubox, g) && NewBox(parent, ubox, name, base, box) && CacheFits(parent, ubox, g, name, base)
    ensures Sharing(NewParent(parent, name, base), ubox[name := box][Const(name) := box], AddBase(g, name, base))
  {
    var parent', ubox' := NewParent(parent, name, base), ubox[name := box][Const(name) := box];
    Names(g, name);
    forall t | t in g.classes && t in parent'
      ensures SharedCache(parent', ubox', t) && ParentIsBase(parent', AddBase(g, name, base), t)
    {
      Names(g, t);
      assert t in parent ==> SharedCache(parent, ubox, t) && ParentIsBase(parent, g, t);
    }
  }

  lemma SharingLost(parent: map<string, string>, ubox: map<string, Ubox>, g: Graph, name: string, base: string,
          box: Ubox)
    requires WellFormed(g) && name in g.classes && (base == "" || base in g.classes)
    requires Sharing(parent, ubox, g) && NewBox(parent, ubox, name, base, box)
    requires !CacheFits(parent, ubox, g, name, base)
    ensures !Sharing(NewParent(parent, name, base), ubox[name := box][Const(name) := box], AddBase(g, name, base))
  {
    var parent', ubox' := NewParent(parent, name, base), ubox[name := box][Const(name) := box];
    Names(g, name);
    if base != "" && base !in ubox {
      Names(g, base);
      assert !SharedCache(parent', ubox', name);
    } else {
      var t :| t in g.classes && t in parent && t in ubox && t != name && parent[t] == name
               && (base == "" || ubox[t] != ubox[base]);
      Names(g, t);
      assert SharedCache(parent, ubox, t);
      assert !SharedCache(parent', ubox', t);
    }
  }

  /** What a push leaves on the stack. */
  datatype Pushed = Nothing | Nil | Object(ud: Userdata)

  class Registry {
    var metatables: set<string>
    var super: Tables
    var parent: map<string, string>
    var ubox: map<string, Ubox>
    const globalUbox: Ubox
    var root: map<Pointer, Userdata>
    ghost var graph: Graph

    /** Which metatables exist, and that only they have tables; a class that has a base, be it the
        common one, has a cache. */
    ghost predicate KnownTables()
      reads `metatables, `super, `parent, `ubox, `graph
    {
      && (forall m :: m in metatables <==>
            m == COMMON_CLASS || m in graph.classes || exists t :: t in graph.classes && m == Const(t))
      && super.Keys <= metatables && ubox.Keys <= metatables && parent.Keys <= metatables && COMMON_CLASS !in ubox
      && (forall t | t in graph.classes && t in parent :: t in ubox)
    }

    ghost predicate Known()
      reads `metatables, `super, `parent, `ubox, `graph
    {
      WellFormed(graph) && KnownTables()
    }

    /** The flattened tables agree with the graph of the declared classes and bases. */
    ghost predicate Valid()
      reads `metatables, `super, `parent, `ubox, `graph
    {
      Known() && Agree(super, graph)
    }

    /** Every class that has been through tolua_cclass shares the cache of its base and of its const
        form, and that base is one of the graph. */
    ghost predicate SharesCaches()
      reads `parent, `ubox, `graph
    {
      Sharing(parent, ubox, graph)
    }

    // tolua_open (tolua_map.c:364-397)
    constructor ()
      ensures Valid() && SharesCaches() && graph == Graph({}, {}) && fresh(globalUbox) && globalUbox.cached == map[]
      ensures parent == map[] && ubox == map[]
    {
      metatables := {COMMON_CLASS};
      super := map[];
      parent := map[];
      ubox := map[];
      globalUbox := new Ubox();
      root := map[];
      graph := Graph({}, {});
    }

    // tolua_newmetatable (tolua_map.c:28-44)
    method NewMetatable(name: string) returns (isNew: bool)
      modifies this`metatables
      ensures isNew <==> name !in old(metatables)
      ensures metatables == old(metatables) + {name}
    {
      isNew := name !in metatables;
      metatables := metatables + {name};
    }

    // mapsuper (tolua_map.c:49-87)
    method MapSuperClass(name: string, base: string)
      requires name in metatables && super.Keys <= metatables
      modifies this`super
      ensures super == MapSuper(old(super), name, base)
      ensures super.Keys == old(super).Keys + {name}
    {
      if name !in super {
        super := super[name := {}];
      }
      super := super[name := super[name] + {base}];
      if base in metatables && base in super {
        ghost var before := super;
        var keys := super[base];
        while keys != {}
          invariant keys <= before[base] && super.Keys == before.Keys
          invariant forall x | x in before && x != name :: super[x] == before[x]
          invariant super[name] == before[name] + (before[base] - keys)
        {
          var key :| key in keys;
          super := super[name := super[name] + {key}];
          keys := keys - {key};
        }
      }
      ghost var result := MapSuper(old(super), name, base);
      assert super[name] == result[name];
      assert super.Keys == result.Keys;
    }

    // mapinheritance and set_ubox (tolua_map.c:89-147)
    method MapInheritance(name: string, base: string)
      requires name in metatables
      modifies this`parent, this`ubox
      ensures base == "" && name in old(parent) ==> parent == old(parent) && ubox == old(ubox)
      ensures base != "" || name !in old(parent) ==>
                var basemt := if base != "" then base else COMMON_CLASS;
                && name in ubox && ubox == old(ubox)[name := ubox[name]]
                && (if basemt in metatables && basemt in old(ubox) then ubox[name] == old(ubox)[basemt]
                    else fresh(ubox[name]) && ubox[name].cached == map[])
                && parent == if basemt in metatables then old(parent)[name := basemt] else old(parent) - {name}
    {
      var basemt := base;
      if base == "" {
        if name in parent {
          return;
        }
        basemt := COMMON_CLASS;
      }
      if basemt in metatables && basemt in ubox {
        ubox := ubox[name := ubox[basemt]];
      } else {
        var box := new Ubox();
        ubox := ubox[name := box];
      }
      parent := if basemt in metatables then parent[name := basemt] else parent - {name};
    }

    // tolua_usertype (tolua_map.c:468-476)
    method UserType(typ: string)
      requires Valid() && Compatible(graph, typ)
      modifies this`metatables, this`super, this`graph
      ensures Valid() && graph == Graph(old(graph.classes) + {typ}, old(graph.bases))
      ensures old(SharesCaches()) ==> SharesCaches()
    {
      hide Agree, MapSuper, Const, Edge, Reaches, WellFormed, Compatible;
      var ctype := Const(typ);
      NotYetKnown(typ);
      var isNew := NewMetatable(ctype);
      if isNew {
        isNew := NewMetatable(typ);
        if isNew {
          NewClassAgrees(super, graph, typ);
          MapSuperClass(typ, ctype);
          graph := Graph(graph.classes + {typ}, graph.bases);
        }
      }
      assert old(typ in graph.classes) ==> graph.classes + {typ} == graph.classes;
    }

    lemma NotYetKnown(typ: string)
      requires Known() && Compatible(graph, typ)
      ensures typ != COMMON_CLASS && typ != Const(typ) && Const(typ) != COMMON_CLASS
      ensures Const(typ) in metatables <==> typ in graph.classes
      ensures typ in metatables <==> typ in graph.classes
    {
      ConstIsReal(typ);
      assert forall u | u in graph.classes && u != typ :: Apart(typ, u);
    }

    /** The two calls of mapsuper for a class and its const form (tolua_map.c:622-623, 676-677). */
    method LinkSuper(name: string, base: string)
      requires Valid() && name in graph.classes && (base == "" || base in graph.classes)
      modifies this`super, this`graph
      ensures Known() && graph == AddBase(old(graph), name, base) && super == LinkBase(old(super), name, base)
      ensures Valid() <==> old(base == "" || Admits(graph, name, base))
    {
      hide Agree, MapSuper, Admits;
      Names(graph, name);
      EmptyNotKnown();
      if base == "" {
        NoBaseAgrees(super, graph, name);
      } else {
        BaseAgrees(super, graph, name, base);
      }
      MapSuperClass(Const(name), Const(base));
      MapSuperClass(name, base);
      graph := AddBase(graph, name, base);
    }

    lemma EmptyNotKnown()
      requires Known()
      ensures "" !in metatables && Const("") !in metatables
    {
      forall t | t in graph.classes
        ensures !Pseudo(t) && !Pseudo(Const(t))
      {
        Names(graph, t);
      }
      assert COMMON_CLASS[0] == 't' && Const("")[0] == 'c';
    }

    /** The two calls of mapinheritance (tolua_map.c:619-620). */
    method Inherit(name: string, base: string)
      requires Known() && name in graph.classes && (base == "" || base in graph.classes)
      modifies this`parent, this`ubox
      ensures Known() && name in ubox
      ensures parent == NewParent(old(parent), name, base)
      ensures ubox == old(ubox)[name := ubox[name]][Const(name) := ubox[name]]
      ensures base != "" && base in old(ubox) ==> ubox[name] == old(ubox)[base]
      ensures base == "" && name in old(parent) ==> ubox[name] == old(ubox)[name]
      ensures (base != "" && base !in old(ubox)) || (base == "" && name !in old(parent)) ==>
                fresh(ubox[name]) && ubox[name].cached == map[]
    {
      hide Const, WellFormed;
      NamesHere(name);
      MapInheritance(name, base);
      MapInheritance(Const(name), name);
    }

    lemma NamesHere(name: string)
      requires Known() && name in graph.classes
      ensures name in metatables && Const(name) in metatables && COMMON_CLASS in metatables
      ensures name != "" && Const(name) != name && name != COMMON_CLASS && Const(name) != COMMON_CLASS
      ensures forall t | t in graph.classes :: t != Const(name)
    {
      Names(graph, name);
    }

    // tolua_cclass (tolua_map.c:611-663), as far as inheritance goes
    method CClass(name: string, base: string)
      requires Valid() && name in graph.classes && (base == "" || base in graph.classes)
      modifies this`parent, this`ubox, this`super, this`graph
      ensures Known() && graph == AddBase(old(graph), name, base) && super == LinkBase(old(super), name, base)
      ensures Valid() <==> old(base == "" || Admits(graph, name, base))
      ensures old(SharesCaches()) ==> (SharesCaches() <==> old(CacheFits(parent, ubox, graph, name, base)))
      ensures name in ubox && parent == NewParent(old(parent), name, base)
      ensures ubox == old(ubox)[name := ubox[name]][Const(name) := ubox[name]]
      ensures base != "" && base in old(ubox) ==> ubox[name] == old(ubox)[base]
      ensures (base != "" && base !in old(ubox)) || (base == "" && name !in old(parent)) ==>
                fresh(ubox[name]) && ubox[name].cached == map[]
    {
      hide Agree, WellFormed, Sharing, Const, Admits, LinkBase, CacheFits, NewParent;
      Inherit(name, base);
      if old(SharesCaches()) {
        SharingIff(old(parent), old(ubox), graph, name, base, ubox[name]);
      }
      LinkSuper(name, base);
    }

    // tolua_addbase (tolua_map.c:669-678)
    method AddBaseClass(name: string, base: string)
      requires Valid() && name in graph.classes && (base == "" || base in graph.classes)
      modifies this`super, this`graph
      ensures Known() && graph == AddBase(old(graph), name, base) && super == LinkBase(old(super), name, base)
      ensures Valid() <==> old(base == "" || Admits(graph, name, base))
      ensures old(SharesCaches()) ==> SharesCaches()
    {
      hide Agree, Registry.Known, Admits, LinkBase, SharedCache;
      LinkSuper(name, base);
    }

    // tolua_fast_isa (tolua_is.c:23-45); without a table for mta the lookup is an error
    method FastIsa(mta: string, mtb: string) returns (result: bool)
      requires Valid() && mtb in metatables && (mta == mtb || mta in super)
      ensures result <==> mta == mtb || Reaches(graph, mta, mtb)
    {
      EmptyNotKnown();
      if mta == mtb {
        return true;
      }
      TableIsReachability(super, graph, mta, mtb);
      result := mtb in super[mta];
    }

    // ----- Pushing a C++ object -----

    /** The userdata cache that a push of the given type uses. */
    function Box(typ: string): Ubox
      reads `ubox
    {
      if typ in ubox then ubox[typ] else globalUbox
    }

    // tolua_pushusertype_internal (tolua_push.c:51-125); an object that keeps its more specialised
    // type is not entered in the root table
    method PushUserType(value: Pointer, typ: string, addToRoot: bool) returns (r: Pushed)
      modifies this`root, Box(typ), if value in Box(typ).cached then {Box(typ).cached[value]} else {}
      ensures value == NULL ==> r == Nil
      ensures value != NULL && typ !in metatables ==> r == Nothing
      ensures value == NULL || typ !in metatables ==> Box(typ).cached == old(Box(typ).cached) && root == old(root)
      ensures value != NULL && typ in metatables ==>
                && r.Object? && Box(typ).cached == old(Box(typ).cached)[value := r.ud]
                && (value !in old(Box(typ).cached) ==> fresh(r.ud) && r.ud.value == value && r.ud.metatable == typ)
                && (value in old(Box(typ).cached) ==> r.ud == old(Box(typ).cached[value]))
                && (value in old(Box(typ).cached) ==>
                      var before := old(Box(typ).cached[value].metatable);
                      r.ud.metatable == if typ in SuperOf(super, before) then before else typ)
      ensures value in old(Box(typ).cached) && (value == NULL || typ !in metatables) ==>
                old(Box(typ).cached[value]).metatable == old(Box(typ).cached[value].metatable)
      ensures r.Object? && addToRoot
              && !(value in old(Box(typ).cached) && typ in SuperOf(super, old(Box(typ).cached[value].metatable)))
              ==> root == old(root)[value := r.ud]
      ensures !r.Object? || !addToRoot
              || (value in old(Box(typ).cached) && typ in SuperOf(super, old(Box(typ).cached[value].metatable)))
              ==> root == old(root)
    {
      if value == NULL {
        return Nil;
      }
      if typ !in metatables {
        return Nothing;
      }
      var box := Box(typ);
      var ud;
      if value !in box.cached {
        ud := new Userdata(value, typ);
        box.cached := box.cached[value := ud];
      } else {
        ud := box.cached[value];
        if ud.metatable in super && typ in super[ud.metatable] {
          return Object(ud);
        }
        ud.metatable := typ;
      }
      if addToRoot {
        root := root[value := ud];
      }
      return Object(ud);
    }
  }

  // ----- Runs of pushes -----

  type Caches = map<string, Ubox>

  /** `m` is the most derived of those of the types that use the given cache. */
  ghost predicate MostDerived(g: Graph, caches: Caches, box: Ubox, m: string, types: seq<string>) {
    && m in types && m in caches && caches[m] == box
    && forall t | t in types && t in caches && caches[t] == box && t != m :: Reaches(g, m, t)
  }

  /** Any two of the types that use the same cache are related by inheritance. */
  ghost predicate Related(g: Graph, caches: Caches) {
    forall t, u | t in caches && u in caches && t != u && caches[t] == caches[u] :: Reaches(g, t, u) || Reaches(g, u, t)
  }

  /** `best` has the most derived of the types pushed so far, for every cache in use. */
  ghost predicate Best(g: Graph, caches: Caches, best: map<Ubox, string>, pushed: seq<string>) {
    && (forall t | t in pushed && t in caches :: caches[t] in best)
    && (forall b | b in best :: MostDerived(g, caches, b, best[b], pushed))
  }

  /** The type of the userdata after a push, by the rule of tolua_pushusertype_internal. */
  function Specialised(super: Tables, best: map<Ubox, string>, box: Ubox, t: string): string {
    if box in best && t in SuperOf(super, best[box]) then best[box] else t
  }

  lemma BestStep(super: Tables, g: Graph, caches: Caches, best: map<Ubox, string>, pushed: seq<string>, t: string)
    requires Agree(super, g) && Related(g, caches) && Best(g, caches, best, pushed)
    requires t in caches && !Pseudo(t) && forall u | u in pushed :: u in caches
    ensures Best(g, caches, best[caches[t] := Specialised(super, best, caches[t], t)], pushed + [t])
  {
    var box := caches[t];
    var m := Specialised(super, best, box, t);
    if box in best {
      TableIsReachability(super, g, best[box], t);
      assert MostDerived(g, caches, box, best[box], pushed);
    }
    forall u | u in pushed + [t] && u in caches && caches[u] == box && u != m
      ensures Reaches(g, m, u)
    {
      if u in pushed && m == t != best[box] && u != best[box] {
        ReachesTrans(g, t, best[box], u);
      }
    }
    forall b | b in best && b != box
      ensures MostDerived(g, caches, b, best[b], pushed + [t])
    {
      assert MostDerived(g, caches, b, best[b], pushed);
    }
  }

  ghost function CachesOf(r: Registry, types: seq<string>): Caches
    reads r`ubox
  {
    map t | t in types :: r.Box(t)
  }

  /** The userdata of the pointer in the caches that have one, with their types. */
  ghost predicate Holding(value: Pointer, boxes: set<Ubox>, got: map<Ubox, Userdata>, best: map<Ubox, string>)
    reads boxes, got.Values
  {
    && got.Keys == best.Keys && got.Keys <= boxes
    && (forall b | b in got :: value in b.cached && b.cached[value] == got[b] && got[b].metatable == best[b])
    && (forall b, c | b in got && c in got && b != c :: got[b] != got[c])
    && (forall b | b in boxes && b !in got :: value !in b.cached)
  }

  method PushOne(r: Registry, value: Pointer, t: string, ghost boxes: set<Ubox>, ghost got: map<Ubox, Userdata>,
          ghost best: map<Ubox, string>) returns (p: Pushed)
    requires value != NULL && t in r.metatables && r.Box(t) in boxes && Holding(value, boxes, got, best)
    modifies r`root, r.Box(t), if r.Box(t) in got then {got[r.Box(t)]} else {}
    ensures p.Object? && (if r.Box(t) in got then p.ud == got[r.Box(t)] else fresh(p.ud))
    ensures Holding(value, boxes, got[r.Box(t) := p.ud], best[r.Box(t) := Specialised(r.super, best, r.Box(t), t)])
  {
    p := r.PushUserType(value, t, false);
  }

  lemma Start(r: Registry, value: Pointer, boxes: set<Ubox>, caches: Caches)
    requires forall b | b in boxes :: value !in b.cached
    ensures Holding(value, boxes, map[], map[]) && Best(r.graph, caches, map[], [])
  {
  }

  lemma RealType(r: Registry, t: string)
    requires r.Valid() && t in r.metatables
    ensures !Pseudo(t) && Agree(r.super, r.graph)
  {
    r.EmptyNotKnown();
  }

  lemma Finish(g: Graph, value: Pointer, boxes: set<Ubox>, caches: Caches, got: map<Ubox, Userdata>,
          best: map<Ubox, string>, types: seq<string>)
    requires Holding(value, boxes, got, best) && Best(g, caches, best, types)
    ensures forall b | b in got :: MostDerived(g, caches, b, got[b].metatable, types)
    ensures forall b, c | b in got && c in got :: got[b] == got[c] <==> b == c
  {
  }

  /** Pushing one pointer again and again, with types in any order: two pushes return the same userdata
      exactly if their types use the same cache, and every userdata ends with the most derived of the types
      pushed with its cache. */
  method PushAll(r: Registry, value: Pointer, types: seq<string>) returns (pushed: seq<Pushed>)
    requires r.Valid() && value != NULL && Related(r.graph, CachesOf(r, types))
    requires forall t | t in types :: t in r.metatables && value !in r.Box(t).cached
    modifies r`root, CachesOf(r, types).Values
    ensures |pushed| == |types| && forall i | 0 <= i < |types| :: pushed[i].Object?
    ensures forall i, j | 0 <= i < |types| && 0 <= j < |types| ::
              pushed[i].ud == pushed[j].ud <==> r.Box(types[i]) == r.Box(types[j])
    ensures forall i | 0 <= i < |types| ::
              MostDerived(r.graph, CachesOf(r, types), r.Box(types[i]), pushed[i].ud.metatable, types)
  {
    hide Registry.Valid, Agree, Related, Best, Holding, MostDerived, Specialised, Const, SuperOf;
    ghost var caches := CachesOf(r, types);
    ghost var boxes := caches.Values;
    ghost var got: map<Ubox, Userdata>, best: map<Ubox, string> := map[], map[];
    pushed := [];
    Start(r, value, boxes, caches);
    for i := 0 to |types|
      invariant |pushed| == i && r.Valid() && CachesOf(r, types) == caches
      invariant Holding(value, boxes, got, best) && Best(r.graph, caches, best, types[..i])
      invariant forall b | b in got :: fresh(got[b])
      invariant forall k | 0 <= k < i :: caches[types[k]] in got && pushed[k] == Object(got[caches[types[k]]])
    {
      var t := types[i];
      assert types[..i + 1] == types[..i] + [t];
      assert t in caches && caches[t] in boxes;
      RealType(r, t);
      BestStep(r.super, r.graph, caches, best, types[..i], t);
      var next := PushOne(r, value, t, boxes, got, best);
      got, best := got[caches[t] := next.ud], best[caches[t] := Specialised(r.super, best, caches[t], t)];
      pushed := pushed + [next];
    }
    assert types[..|types|] == types;
    Finish(r.graph, value, boxes, caches, got, best, types);
  }

  /** There is only one most derived type. */
  lemma MostDerivedUnique(r: Registry, caches: Caches, box: Ubox, m: string, n: string, types: seq<string>)
    requires r.Valid() && m in r.metatables
    requires MostDerived(r.graph, caches, box, m, types) && MostDerived(r.graph, caches, box, n, types)
    ensures m == n
  {
    if m != n {
      r.EmptyNotKnown();
      NoCycle(r.super, r.graph, m, n);
    }
  }

  /** Classes, each with the next one as its base in tolua_cclass. */
  ghost predicate Lineage(r: Registry, c: seq<string>)
    reads r
  {
    && (forall i | 0 <= i < |c| :: c[i] in r.graph.classes && c[i] in r.parent)
    && (forall i | 1 <= i < |c| :: r.parent[c[i - 1]] == c[i])
  }

  /** The classes of one line of inheritance and their const forms use one userdata cache, and each
      reaches the later ones, in its own form and in the const form. */
  lemma {:induction false} LineageSharesCache(r: Registry, c: seq<string>, i: nat, j: nat)
    requires r.Valid() && r.SharesCaches() && Lineage(r, c) && i <= j < |c|
    ensures r.Box(Const(c[i])) == r.Box(c[i]) == r.Box(c[j]) == r.Box(Const(c[j]))
    ensures Reaches(r.graph, c[i], Const(c[j]))
    ensures i < j ==> Reaches(r.graph, c[i], c[j]) && Reaches(r.graph, Const(c[i]), Const(c[j]))
    decreases j - i
  {
    Names(r.graph, c[i]);
    assert SharedCache(r.parent, r.ubox, c[i]) && ParentIsBase(r.parent, r.graph, c[i]);
    if i < j {
      LineageSharesCache(r, c, i + 1, j);
      assert r.parent[c[i + 1 - 1]] == c[i + 1];
      Names(r.graph, c[i + 1]);
      ReachesEdge(r.graph, c[i], c[i + 1], c[j]);
      ReachesEdge(r.graph, c[i], c[i + 1], Const(c[j]));
      ConstReaches(r.graph, c[i], c[j]);
    } else {
      ReachesEdge(r.graph, c[i], Const(c[i]), Const(c[j]));
    }
  }

  /** The answers depend on the declared classes and bases alone, not on the order of the calls. */
  lemma OrderIndependent(r: Registry, q: Registry, x: string, y: string)
    requires r.Valid() && q.Valid() && r.graph == q.graph && y in r.metatables
    ensures y in SuperOf(r.super, x) <==> y in SuperOf(q.super, x)
  {
    r.EmptyNotKnown();
    TableIsReachability(r.super, r.graph, x, y);
    TableIsReachability(q.super, q.graph, x, y);
  }

  // ----- Runs in which a table, or a cache, is not that of the base -----

  lemma OneLetter(g: Graph, t: string)
    requires |t| == 1 && forall u | u in g.classes :: |u| == 1
    ensures Compatible(g, t)
  {
    assert |Const(t)| == 7 && COMMON_CLASS[0] == 't' && |COMMON_CLASS| > 1;
    forall u | u in g.classes && u != t
      ensures Apart(t, u)
    {
      assert Const(t)[6] == t[0] && Const(u)[6] == u[0];
      assert t == [t[0]] && u == [u[0]];
    }
  }

  /** A registry of three classes without bases. */
  method ThreeClasses() returns (r: Registry)
    ensures fresh(r) && r.Valid() && r.SharesCaches() && r.graph == Graph({"A", "B", "C"}, {})
    ensures r.parent == map[] && r.ubox == map[]
  {
    hide Registry.Valid, Registry.SharesCaches, Compatible;
    r := new Registry();
    OneLetter(r.graph, "A");
    r.UserType("A");
    OneLetter(r.graph, "B");
    r.UserType("B");
    OneLetter(r.graph, "C");
    r.UserType("C");
    assert {} + {"A"} + {"B"} + {"C"} == {"A", "B", "C"};
  }

  /** Three complete classes, of which B is derived from A. */
  method OneDerived() returns (r: Registry)
    ensures fresh(r) && r.Valid() && r.graph == Graph({"A", "B", "C"}, {("B", "A")})
  {
    hide Registry.KnownTables, Registry.SharesCaches, Agree, Admits, Sharing, Const;
    r := ThreeClasses();
    r.CClass("A", "");
    LeafAdmits(r.graph, "B", "A");
    r.CClass("B", "A");
    r.CClass("C", "");
  }

  /** B is derived from A before A gets the base C: B reaches C, but its table does not have C. */
  method LateBase() returns (r: Registry)
    ensures !r.Valid() && Reaches(r.graph, "B", "C") && "C" !in SuperOf(r.super, "B")
  {
    hide Registry.KnownTables, Agree, Admits, Reaches;
    r := OneDerived();
    NotReached(r.graph, "B", "C");
    MissedHere(r.super, r.graph);
    r.AddBaseClass("A", "C");
  }

  lemma MissedHere(super: Tables, g: Graph)
    requires WellFormed(g) && Agree(super, g) && {"A", "B", "C"} <= g.classes && ("B", "A") in g.bases
    requires !Reaches(g, "B", "C")
    ensures !Admits(g, "A", "C") && Reaches(AddBase(g, "A", "C"), "B", "C")
    ensures "C" !in SuperOf(LinkBase(super, "A", "C"), "B")
  {
    assert !Pseudo("C") by { assert |Const("")| == 6; }
    TableIsReachability(super, g, "B", "C");
    ReachesEdge(g, "B", "A", "A");
    LateBaseIsMissed(super, g, "A", "C", "B");
  }

  /** B gets the base A by tolua_addbase alone. */
  method AddedBase() returns (r: Registry, a: Ubox, b: Ubox)
    ensures fresh(r) && r.Valid() && r.SharesCaches() && Reaches(r.graph, "B", "A")
    ensures "A" in r.metatables && "B" in r.metatables && r.Box("A") == a && r.Box("B") == b
    ensures a != b && fresh(a) && fresh(b) && a.cached == b.cached == map[]
  {
    hide Registry.KnownTables, Agree, Admits, Reaches, Sharing, Const, LinkBase;
    r := ThreeClasses();
    LongNames();
    r.CClass("A", "");
    a := r.ubox["A"];
    r.CClass("B", "");
    b := r.ubox["B"];
    LeafAdmits(r.graph, "B", "A");
    r.AddBaseClass("B", "A");
    assert ("B", "A") in r.graph.bases;
    ReachesEdge(r.graph, "B", "A", "A");
    HasMetatables(r);
  }

  /** Then B reaches A, but pushes of one pointer as B and as A give two userdata. */
  method SeparateCaches() returns (r: Registry, pushed: seq<Pushed>)
    ensures r.Valid() && r.SharesCaches() && Reaches(r.graph, "B", "A")
    ensures |pushed| == 2 && pushed[0].Object? && pushed[1].Object? && pushed[0].ud != pushed[1].ud
  {
    hide Registry.Valid, Registry.SharesCaches, Reaches, Related;
    var a, b;
    r, a, b := AddedBase();
    TwoCaches(r.graph, CachesOf(r, ["B", "A"]), a, b);
    pushed := PushAll(r, 1, ["B", "A"]);
  }

  /** B is derived from A by tolua_cclass before A has been through it: the classes do not share a cache. */
  method LateCache() returns (r: Registry)
    ensures r.Valid() && !r.SharesCaches() && ("B", "A") in r.graph.bases
    ensures {"A", "B"} <= r.metatables && r.Box("A") != r.Box("B")
  {
    hide Registry.KnownTables, Agree, Admits, Const, LinkBase;
    r := ThreeClasses();
    LongNames();
    LeafAdmits(r.graph, "B", "A");
    r.CClass("B", "A");
    r.CClass("A", "");
    HasMetatables(r);
    assert !SharedCache(r.parent, r.ubox, "B");
  }

  lemma LongNames()
    ensures Const("A") != "A" && Const("A") != "B" && Const("B") != "A" && Const("B") != "B"
  {
    assert |Const("A")| == 7 && |Const("B")| == 7;
  }

  lemma HasMetatables(r: Registry)
    requires r.Known() && {"A", "B"} <= r.graph.classes
    ensures "A" in r.metatables && "B" in r.metatables
  {
  }

  lemma TwoCaches(g: Graph, caches: Caches, a: Ubox, b: Ubox)
    requires caches == map["B" := b, "A" := a] && a != b
    ensures Related(g, caches)
  {
  }
}
