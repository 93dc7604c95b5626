/**
 * Generation of the C port checks: grouping, sorting, the macros and the if-chains
 * (cmd/config-gen/main.go), and what the generated functions mean.
 */
module PortGen {
  import opened Wrappers
  import opened Ports
  import opened Bytes
  import Gate

  datatype CategoryGroup = CategoryGroup(name: string, ports: seq<PortDefinition>)

  datatype Define = Define(alias: string, value: int)

  /** The two generated files: macro definitions in order, and the macros each if-chain compares with. */
  datatype Generated = Generated(defines: seq<Define>, criticalChain: seq<string>, fakeChain: seq<string>)

  // ---------------------------------------------------------------- grouping and sorting

  function OfCategory(defs: seq<PortDefinition>, cat: string): seq<PortDefinition> {
    if defs == [] then []
    else OfCategory(defs[..|defs| - 1], cat) + if defs[|defs| - 1].category == cat then [defs[|defs| - 1]] else []
  }

  function Categories(defs: seq<PortDefinition>): set<string> {
    set i | 0 <= i < |defs| :: defs[i].category
  }

  /** The grouping loop: definitions are appended to their category's slice. */
  method GroupByCategory(defs: seq<PortDefinition>) returns (m: map<string, seq<PortDefinition>>)
    ensures m.Keys == Categories(defs)
    ensures forall cat :: cat in m ==> m[cat] == OfCategory(defs, cat)
  {
    m := map[];
    for i := 0 to |defs|
      invariant m.Keys == Categories(defs[..i])
      invariant forall cat :: OfCategory(defs[..i], cat) == if cat in m then m[cat] else []
    {
      var def := defs[i];
      var slice := if def.category in m then m[def.category] else [];
      m := m[def.category := slice + [def]];
      GroupStep(defs, i);
    }
    assert defs[..|defs|] == defs;
  }

  lemma GroupStep(defs: seq<PortDefinition>, i: nat)
    requires i < |defs|
    ensures Categories(defs[..i + 1]) == Categories(defs[..i]) + {defs[i].category}
    ensures forall cat :: OfCategory(defs[..i + 1], cat)
                          == OfCategory(defs[..i], cat) + if defs[i].category == cat then [defs[i]] else []
  {
    var p := defs[..i + 1];
    assert p[..i] == defs[..i];
    forall c | c in Categories(defs[..i]) + {defs[i].category}
      ensures c in Categories(p)
    {
      if c == defs[i].category {
        assert p[i].category == c;
      } else {
        var j :| 0 <= j < i && defs[..i][j].category == c;
        assert p[j].category == c;
      }
    }
    forall c | c in Categories(p)
      ensures c in Categories(defs[..i]) + {defs[i].category}
    {
      var j :| 0 <= j < |p| && p[j].category == c;
      if j < i {
        assert defs[..i][j].category == c;
      }
    }
  }

  ghost predicate SortedByPort(s: seq<PortDefinition>) {
    forall i, j :: 0 <= i < j < |s| ==> s[i].port <= s[j].port
  }

  /** sort.Slice by port: some sorted permutation. Callers rely on nothing else, so ties may come in any order. */
  method SortByPort(s: seq<PortDefinition>) returns (r: seq<PortDefinition>)
    ensures SortedByPort(r) && multiset(r) == multiset(s)
  {
    r := [];
    for i := 0 to |s|
      invariant SortedByPort(r) && multiset(r) == multiset(s[..i])
    {
      assert s[..i + 1] == s[..i] + [s[i]];
      r := InsertByPort(r, s[i]);
    }
    assert s[..|s|] == s;
  }

  method InsertByPort(s: seq<PortDefinition>, d: PortDefinition) returns (r: seq<PortDefinition>)
    requires SortedByPort(s)
    ensures SortedByPort(r) && multiset(r) == multiset(s) + multiset{d}
  {
    var k := 0;
    while k < |s| && s[k].port <= d.port
      invariant k <= |s| && forall i :: 0 <= i < k ==> s[i].port <= d.port
    {
      k := k + 1;
    }
    InsertedInOrder(s, k, d);
    r := s[..k] + [d] + s[k..];
  }

  lemma InsertedInOrder(s: seq<PortDefinition>, k: nat, d: PortDefinition)
    requires SortedByPort(s) && k <= |s|
    requires forall i :: 0 <= i < k ==> s[i].port <= d.port
    requires k < |s| ==> d.port < s[k].port
    ensures SortedByPort(s[..k] + [d] + s[k..])
    ensures multiset(s[..k] + [d] + s[k..]) == multiset(s) + multiset{d}
  {
    MultisetInserted(s, k, d);
    var r := s[..k] + [d] + s[k..];
    forall i, j | 0 <= i < j < |r|
      ensures r[i].port <= r[j].port
    {
      InsertedAt(s, k, d, i);
      InsertedAt(s, k, d, j);
      if i == k {
        assert k == j - 1 || s[k].port <= s[j - 1].port;
      }
    }
  }

  lemma InsertedAt<T>(s: seq<T>, k: nat, d: T, i: nat)
    requires k <= |s| && i <= |s|
    ensures (s[..k] + [d] + s[k..])[i] == if i < k then s[i] else if i == k then d else s[i - 1]
  {
  }

  lemma MultisetInserted<T>(s: seq<T>, k: nat, d: T)
    requires k <= |s|
    ensures multiset(s[..k] + [d] + s[k..]) == multiset(s) + multiset{d}
  {
    assert s == s[..k] + s[k..];
  }

  /** Every definition of every group. */
  function AllPorts(groups: seq<CategoryGroup>): seq<PortDefinition> {
    if groups == [] then [] else groups[0].ports + AllPorts(groups[1..])
  }

  lemma {:induction false} AllPortsAppend(groups: seq<CategoryGroup>, g: CategoryGroup)
    ensures AllPorts(groups + [g]) == AllPorts(groups) + g.ports
  {
    if groups == [] {
      assert groups + [g] == [g] && [g][1..] == [];
      assert AllPorts([g]) == g.ports + [];
    } else {
      assert (groups + [g])[1..] == groups[1..] + [g];
      AllPortsAppend(groups[1..], g);
    }
  }

  /** The definitions of a set of categories, as one multiset. */
  function InCategories(defs: seq<PortDefinition>, cats: set<string>): multiset<PortDefinition> {
    if defs == [] then multiset{}
    else InCategories(defs[..|defs| - 1], cats)
         + if defs[|defs| - 1].category in cats then multiset{defs[|defs| - 1]} else multiset{}
  }

  lemma {:induction false} InMoreCategories(defs: seq<PortDefinition>, cats: set<string>, cat: string)
    requires cat !in cats
    ensures InCategories(defs, cats + {cat}) == InCategories(defs, cats) + multiset(OfCategory(defs, cat))
  {
    if defs != [] {
      InMoreCategories(defs[..|defs| - 1], cats, cat);
    }
  }

  lemma {:induction false} InEveryCategory(defs: seq<PortDefinition>, cats: set<string>)
    requires Categories(defs) <= cats
    ensures InCategories(defs, cats) == multiset(defs)
  {
    if defs != [] {
      var p := defs[..|defs| - 1];
      assert defs == p + [defs[|defs| - 1]];
      forall c | c in Categories(p)
        ensures c in cats
      {
        var i :| 0 <= i < |p| && p[i].category == c;
        assert defs[i].category == c && c in Categories(defs);
      }
      assert defs[|defs| - 1].category in Categories(defs);
      InEveryCategory(p, cats);
    }
  }

  lemma {:induction false} InNoCategory(defs: seq<PortDefinition>)
    ensures InCategories(defs, {}) == multiset{}
  {
    if defs != [] {
      InNoCategory(defs[..|defs| - 1]);
    }
  }

  /** Sorting groups by name, again as some permutation. */
  method SortGroups(s: seq<CategoryGroup>, le: (string, string) -> bool) returns (r: seq<CategoryGroup>)
    ensures multiset(AllPorts(r)) == multiset(AllPorts(s)) && multiset(r) == multiset(s)
  {
    r := [];
    for i := 0 to |s|
      invariant multiset(AllPorts(r)) == multiset(AllPorts(s[..i])) && multiset(r) == multiset(s[..i])
    {
      assert s[..i + 1] == s[..i] + [s[i]];
      AllPortsAppend(s[..i], s[i]);
      r := InsertGroup(r, s[i], le);
    }
    assert s[..|s|] == s;
  }

  method InsertGroup(s: seq<CategoryGroup>, g: CategoryGroup, le: (string, string) -> bool)
    returns (r: seq<CategoryGroup>)
    ensures multiset(AllPorts(r)) == multiset(AllPorts(s)) + multiset(g.ports)
    ensures multiset(r) == multiset(s) + multiset{g}
  {
    var k := 0;
    while k < |s| && le(s[k].name, g.name)
      invariant k <= |s|
    {
      k := k + 1;
    }
    AllPortsInsert(s, k, g);
    r := s[..k] + [g] + s[k..];
    assert s == s[..k] + s[k..];
  }

  lemma {:induction false} AllPortsInsert(groups: seq<CategoryGroup>, k: nat, g: CategoryGroup)
    requires k <= |groups|
    ensures multiset(AllPorts(groups[..k] + [g] + groups[k..])) == multiset(AllPorts(groups)) + multiset(g.ports)
  {
    var all := groups[..k] + [g] + groups[k..];
    if k == 0 {
      assert all[1..] == groups;
    } else {
      assert all[1..] == groups[1..][..k - 1] + [g] + groups[1..][k - 1..];
      AllPortsInsert(groups[1..], k - 1, g);
    }
  }

  /** The category part of main: nothing is lost or duplicated by grouping and sorting. */
  method BuildCategories(defs: seq<PortDefinition>, nameOf: string -> string, le: (string, string) -> bool)
    returns (groups: seq<CategoryGroup>)
    ensures multiset(AllPorts(groups)) == multiset(defs)
  {
    var byCategory := GroupByCategory(defs);
    groups := [];
    var unvisited := byCategory.Keys;
    ghost var visited: set<string> := {};
    InNoCategory(defs);
    while unvisited != {}
      invariant unvisited !! visited && unvisited + visited == byCategory.Keys
      invariant multiset(AllPorts(groups)) == InCategories(defs, visited)
    {
      var cat :| cat in unvisited;
      var ports := SortByPort(byCategory[cat]);
      AllPortsAppend(groups, CategoryGroup(nameOf(cat), ports));
      InMoreCategories(defs, visited, cat);
      groups := groups + [CategoryGroup(nameOf(cat), ports)];
      unvisited, visited := unvisited - {cat}, visited + {cat};
    }
    InEveryCategory(defs, visited);
    groups := SortGroups(groups, le);
  }

  // ---------------------------------------------------------------- emission

  function DefinesOf(defs: seq<PortDefinition>): seq<Define> {
    seq(|defs|, i requires 0 <= i < |defs| => Define(defs[i].alias, defs[i].port))
  }

  function AliasesOf(defs: seq<PortDefinition>): seq<string> {
    seq(|defs|, i requires 0 <= i < |defs| => defs[i].alias)
  }

  /** The constants the header defines before the ports. */
  const FIXED_DEFINES: seq<Define> := [
    Define("HONEYPOT_PORT", 9999), Define("SSH_PORT", 22), Define("SPA_MAGIC_PORT", 1337), Define("SPA_TOKEN_LEN", 21),
    Define("SPA_WHITELIST_DURATION_NS", 30_000_000_000),
    Define("TTL_WINDOWS", 128), Define("TTL_LINUX", 64), Define("TTL_FREEBSD", 64), Define("TTL_SOLARIS", 255),
    Define("WINDOW_WINDOWS", 65535), Define("WINDOW_LINUX", 29200), Define("WINDOW_FREEBSD", 65535),
    Define("MAX_PAYLOAD_SCAN", 512)
  ]

  function Emit(headerOrder: seq<PortDefinition>, chainOrder: seq<PortDefinition>, fakeOrder: seq<PortDefinition>)
    : Generated
  {
    Generated(FIXED_DEFINES + DefinesOf(headerOrder) + DefinesOf(fakeOrder),
              AliasesOf(chainOrder), AliasesOf(fakeOrder))
  }

  // ---------------------------------------------------------------- meaning

  /** What a macro stands for after the header: its last definition. */
  function Expand(defines: seq<Define>, alias: string): Option<int> {
    if defines == [] then None
    else if defines[|defines| - 1].alias == alias then Some(defines[|defines| - 1].value)
    else Expand(defines[..|defines| - 1], alias)
  }

  /** The generated function: one comparison per line, the first match returns 1. */
  predicate Matches(defines: seq<Define>, chain: seq<string>, p: u16) {
    chain != [] && (Expand(defines, chain[0]) == Some(p) || Matches(defines, chain[1..], p))
  }

  lemma {:induction false} MatchesSome(defines: seq<Define>, chain: seq<string>, p: u16)
    ensures Matches(defines, chain, p) <==> exists i :: 0 <= i < |chain| && Expand(defines, chain[i]) == Some(p)
  {
    if chain != [] {
      MatchesSome(defines, chain[1..], p);
      if exists i :: 0 <= i < |chain| && Expand(defines, chain[i]) == Some(p) {
        var i :| 0 <= i < |chain| && Expand(defines, chain[i]) == Some(p);
        assert i > 0 ==> chain[1..][i - 1] == chain[i];
      }
      if Matches(defines, chain[1..], p) {
        var i :| 0 <= i < |chain| - 1 && Expand(defines, chain[1..][i]) == Some(p);
        assert chain[i + 1] == chain[1..][i];
      }
    }
  }

  /** The definition's alias stands for its port wherever it is used. */
  ghost predicate AliasAgrees(d: PortDefinition, defs: seq<PortDefinition>) {
    forall e :: e in defs && e.alias == d.alias ==> e.port == d.port
  }

  ghost predicate AliasesAgree(used: seq<PortDefinition>, defs: seq<PortDefinition>) {
    forall d :: d in used ==> AliasAgrees(d, defs)
  }

  lemma SameElements(a: seq<PortDefinition>, b: seq<PortDefinition>)
    requires multiset(a) == multiset(b)
    ensures forall d :: d in a <==> d in b
  {
    assert forall d :: d in a <==> d in multiset(a);
    assert forall d :: d in b <==> d in multiset(b);
  }

  /** The macro of a definition whose alias agrees expands to that definition's port. */
  lemma {:induction false} ExpandInList(pre: seq<Define>, defs: seq<PortDefinition>, d: PortDefinition)
    requires d in defs && AliasAgrees(d, defs)
    ensures Expand(pre + DefinesOf(defs), d.alias) == Some(d.port)
  {
    var last := |defs| - 1;
    var p := defs[..last];
    var all := pre + DefinesOf(defs);
    assert all[..|all| - 1] == pre + DefinesOf(p);
    assert defs == p + [defs[last]];
    if defs[last].alias != d.alias {
      assert d in p;
      assert forall e :: e in p ==> e in defs;
      ExpandInList(pre, p, d);
    } else {
      assert defs[last] in defs;
    }
  }

  /** Whatever order grouping and sorting produced, the generated check is true exactly on the ports of the list. */
  lemma ChainMeaning(headerOrder: seq<PortDefinition>, fakeOrder: seq<PortDefinition>,
                     chainOrder: seq<PortDefinition>, p: u16)
    requires AliasesAgree(chainOrder, headerOrder + fakeOrder)
    requires forall d :: d in chainOrder ==> d in headerOrder || d in fakeOrder
    ensures Matches(FIXED_DEFINES + DefinesOf(headerOrder) + DefinesOf(fakeOrder), AliasesOf(chainOrder), p)
            <==> p in PortsOf(chainOrder)
  {
    var defines := FIXED_DEFINES + DefinesOf(headerOrder) + DefinesOf(fakeOrder);
    var chain := AliasesOf(chainOrder);
    assert defines == FIXED_DEFINES + DefinesOf(headerOrder + fakeOrder);
    MatchesSome(defines, chain, p);
    forall i | 0 <= i < |chain|
      ensures Expand(defines, chain[i]) == Some(PortsOf(chainOrder)[i])
    {
      assert chainOrder[i] in chainOrder;
      ExpandInList(FIXED_DEFINES, headerOrder + fakeOrder, chainOrder[i]);
    }
  }

  /**
   * Generation preserves meaning: where the aliases of a list agree with both lists, as they do when each alias has
   * a single port, the emitted is_critical_asset_port or is_fake_port is true exactly on that list's ports.
   */
  lemma GeneratedMeaning(critical: seq<PortDefinition>, fake: seq<PortDefinition>, g: Generated,
                         headerOrder: seq<PortDefinition>, chainOrder: seq<PortDefinition>,
                         fakeOrder: seq<PortDefinition>, p: u16)
    requires multiset(headerOrder) == multiset(critical) && multiset(chainOrder) == multiset(critical)
    requires multiset(fakeOrder) == multiset(fake)
    requires g == Emit(headerOrder, chainOrder, fakeOrder)
    ensures AliasesAgree(critical, critical + fake) ==>
              (Matches(g.defines, g.criticalChain, p) <==> p in PortsOf(critical))
    ensures AliasesAgree(fake, critical + fake) ==> (Matches(g.defines, g.fakeChain, p) <==> p in PortsOf(fake))
  {
    SameElements(headerOrder, critical);
    SameElements(chainOrder, critical);
    SameElements(fakeOrder, fake);
    SameElements(headerOrder + fakeOrder, critical + fake);
    if AliasesAgree(critical, critical + fake) {
      ChainMeaning(headerOrder, fakeOrder, chainOrder, p);
      SamePorts(chainOrder, critical, p);
    }
    if AliasesAgree(fake, critical + fake) {
      ChainMeaning(headerOrder, fakeOrder, fakeOrder, p);
      SamePorts(fakeOrder, fake, p);
    }
  }

  lemma SamePorts(a: seq<PortDefinition>, b: seq<PortDefinition>, p: int)
    requires forall d :: d in a <==> d in b
    ensures p in PortsOf(a) <==> p in PortsOf(b)
  {
    PortHasDefinition(a, p);
    PortHasDefinition(b, p);
  }

  lemma PortHasDefinition(a: seq<PortDefinition>, p: int)
    ensures p in PortsOf(a) <==> exists d :: d in a && d.port == p
  {
    if p in PortsOf(a) {
      var i :| 0 <= i < |a| && PortsOf(a)[i] == p;
      assert a[i] in a;
    }
    if exists d :: d in a && d.port == p {
      var d :| d in a && d.port == p;
      var i :| 0 <= i < |a| && a[i] == d;
      assert PortsOf(a)[i] == p;
    }
  }

  /** main: groups, sorted lists, header and functions; the emitted functions mean the two lists. */
  method Generate(critical: seq<PortDefinition>, fake: seq<PortDefinition>,
                  nameOf: string -> string, le: (string, string) -> bool)
    returns (g: Generated)
    ensures AliasesAgree(critical, critical + fake) ==>
              forall p: u16 :: Matches(g.defines, g.criticalChain, p) <==> p in PortsOf(critical)
    ensures AliasesAgree(fake, critical + fake) ==>
              forall p: u16 :: Matches(g.defines, g.fakeChain, p) <==> p in PortsOf(fake)
    ensures DistinctPorts(critical) && InRange(critical) ==>
              (CheckIsExact(g, critical) <==> MacrosKeepPorts(g, critical))
    ensures DistinctPorts(critical) && InRange(critical) && NoBorrowedPort(critical, fake) ==>
              (CheckIsExact(g, critical) <==> forall d :: d in critical ==> StandsFor(g, d))
    ensures DistinctPorts(critical) && InRange(critical) && DecoysAgree(critical, fake) ==>
              (CheckIsExact(g, critical) <==> AliasesAgree(critical, critical))
  {
    var groups := BuildCategories(critical, nameOf, le);
    var fakePorts := SortByPort(fake);
    var allCritical := SortByPort(AllPorts(groups));
    g := Generated(FIXED_DEFINES + DefinesOf(allCritical) + DefinesOf(fakePorts),
                   AliasesOf(AllPorts(groups)), AliasesOf(fakePorts));
    forall p: u16
      ensures AliasesAgree(critical, critical + fake) ==>
              (Matches(g.defines, g.criticalChain, p) <==> p in PortsOf(critical))
      ensures AliasesAgree(fake, critical + fake) ==> (Matches(g.defines, g.fakeChain, p) <==> p in PortsOf(fake))
    {
      GeneratedMeaning(critical, fake, g, allCritical, AllPorts(groups), fakePorts, p);
    }
    if DistinctPorts(critical) && InRange(critical) {
      CheckExactlyForAnyDecoys(critical, fake, g, allCritical, AllPorts(groups), fakePorts);
    }
    if DistinctPorts(critical) && InRange(critical) && NoBorrowedPort(critical, fake) {
      CheckExactly(critical, fake, g, allCritical, AllPorts(groups), fakePorts);
    }
    if DistinctPorts(critical) && InRange(critical) && DecoysAgree(critical, fake) {
      CheckExactlyIfDecoysAgree(critical, fake, g, allCritical, AllPorts(groups), fakePorts);
    }
  }

  /** A macro some definition of the list uses expands to the port of a definition that uses it. */
  lemma {:induction false} ExpandAmong(pre: seq<Define>, defs: seq<PortDefinition>, d: PortDefinition)
    returns (e: PortDefinition)
    requires d in defs
    ensures e in defs && e.alias == d.alias && Expand(pre + DefinesOf(defs), d.alias) == Some(e.port)
  {
    var last := |defs| - 1;
    var p := defs[..last];
    var all := pre + DefinesOf(defs);
    assert all[..|all| - 1] == pre + DefinesOf(p);
    assert defs == p + [defs[last]];
    if defs[last].alias == d.alias {
      e := defs[last];
    } else {
      e := ExpandAmong(pre, p, d);
    }
  }

  /** No decoy gives a protected port's macro another port. */
  ghost predicate DecoysAgree(critical: seq<PortDefinition>, fake: seq<PortDefinition>) {
    forall d :: d in critical ==> AliasAgrees(d, fake)
  }

  /** The generated check for protected ports is right on every port. */
  ghost predicate CheckIsExact(g: Generated, critical: seq<PortDefinition>) {
    forall p: u16 :: Matches(g.defines, g.criticalChain, p) <==> p in PortsOf(critical)
  }

  /** After the whole header, the definition's macro stands for its port. */
  predicate StandsFor(g: Generated, d: PortDefinition) {
    Expand(g.defines, d.alias) == Some(d.port)
  }

  /** A decoy that uses a protected port's macro carries no protected port but one the macro is already about. */
  ghost predicate NoBorrowedPort(critical: seq<PortDefinition>, fake: seq<PortDefinition>) {
    forall u, c :: u in fake && c in critical && u.alias == c.alias && u.port in PortsOf(critical) ==>
      exists e :: e in critical && e.alias == u.alias && e.port == u.port
  }

  /** The orders are permutations of the lists, and this is what they emit. */
  ghost predicate Emitted(critical: seq<PortDefinition>, fake: seq<PortDefinition>, g: Generated,
                          headerOrder: seq<PortDefinition>, chainOrder: seq<PortDefinition>,
                          fakeOrder: seq<PortDefinition>)
  {
    && multiset(headerOrder) == multiset(critical) && multiset(chainOrder) == multiset(critical)
    && multiset(fakeOrder) == multiset(fake)
    && g == Emit(headerOrder, chainOrder, fakeOrder)
  }

  /** The generated check accepts a port if and only if some protected definition's macro stands for it. */
  lemma MatchesByDefinition(critical: seq<PortDefinition>, fake: seq<PortDefinition>, g: Generated,
                            headerOrder: seq<PortDefinition>, chainOrder: seq<PortDefinition>,
                            fakeOrder: seq<PortDefinition>, p: u16)
    requires Emitted(critical, fake, g, headerOrder, chainOrder, fakeOrder)
    ensures Matches(g.defines, g.criticalChain, p)
            <==> exists c :: c in critical && Expand(g.defines, c.alias) == Some(p)
  {
    SameElements(chainOrder, critical);
    MatchesSome(g.defines, g.criticalChain, p);
    if exists c :: c in critical && Expand(g.defines, c.alias) == Some(p) {
      var c :| c in critical && Expand(g.defines, c.alias) == Some(p);
      var i :| 0 <= i < |chainOrder| && chainOrder[i] == c;
      assert g.criticalChain[i] == c.alias;
    }
    if Matches(g.defines, g.criticalChain, p) {
      var i :| 0 <= i < |g.criticalChain| && Expand(g.defines, g.criticalChain[i]) == Some(p);
      assert chainOrder[i] in critical && Expand(g.defines, chainOrder[i].alias) == Some(p);
    }
  }

  /** A protected definition's macro stands for the port of some definition that uses it. */
  lemma ExpandsToUser(critical: seq<PortDefinition>, fake: seq<PortDefinition>, g: Generated,
                      headerOrder: seq<PortDefinition>, chainOrder: seq<PortDefinition>,
                      fakeOrder: seq<PortDefinition>, c: PortDefinition) returns (u: PortDefinition)
    requires Emitted(critical, fake, g, headerOrder, chainOrder, fakeOrder) && c in critical
    ensures (u in critical || u in fake) && u.alias == c.alias && Expand(g.defines, c.alias) == Some(u.port)
  {
    SameElements(headerOrder, critical);
    SameElements(fakeOrder, fake);
    var all := headerOrder + fakeOrder;
    assert g.defines == FIXED_DEFINES + DefinesOf(all);
    assert c in all;
    u := ExpandAmong(FIXED_DEFINES, all, c);
  }

  /** Port by port: a protected port is accepted if and only if its own macro stands for it. */
  lemma PortKeptExactly(critical: seq<PortDefinition>, fake: seq<PortDefinition>, g: Generated,
                        headerOrder: seq<PortDefinition>, chainOrder: seq<PortDefinition>,
                        fakeOrder: seq<PortDefinition>, d: PortDefinition)
    requires Emitted(critical, fake, g, headerOrder, chainOrder, fakeOrder)
    requires DistinctPorts(critical) && InRange(critical) && NoBorrowedPort(critical, fake) && d in critical
    ensures Matches(g.defines, g.criticalChain, d.port) <==> StandsFor(g, d)
  {
    PortHasDefinition(critical, d.port);
    MatchesByDefinition(critical, fake, g, headerOrder, chainOrder, fakeOrder, d.port);
    if Matches(g.defines, g.criticalChain, d.port) {
      var c :| c in critical && Expand(g.defines, c.alias) == Some(d.port);
      var u := ExpandsToUser(critical, fake, g, headerOrder, chainOrder, fakeOrder, c);
      SamePortSameDefinition(critical, fake, c, u, d);
    }
  }

  /** A macro that stands for a protected port is that port's own macro. */
  lemma SamePortSameDefinition(critical: seq<PortDefinition>, fake: seq<PortDefinition>,
                               c: PortDefinition, u: PortDefinition, d: PortDefinition)
    requires DistinctPorts(critical) && NoBorrowedPort(critical, fake)
    requires c in critical && d in critical && (u in critical || u in fake)
    requires u.alias == c.alias && u.port == d.port
    ensures c.alias == d.alias
  {
    PortHasDefinition(critical, d.port);
    var e := u;
    if u !in critical {
      e :| e in critical && e.alias == u.alias && e.port == u.port;
    }
    var m :| 0 <= m < |critical| && critical[m] == d;
    var n :| 0 <= n < |critical| && critical[n] == e;
    assert m == n;
  }

  /** Of two definitions that share a macro, one loses its port. */
  lemma SharedAliasLosesPort(critical: seq<PortDefinition>, fake: seq<PortDefinition>, g: Generated,
                             headerOrder: seq<PortDefinition>, chainOrder: seq<PortDefinition>,
                             fakeOrder: seq<PortDefinition>, d: PortDefinition, e: PortDefinition)
    requires Emitted(critical, fake, g, headerOrder, chainOrder, fakeOrder)
    requires DistinctPorts(critical) && InRange(critical) && NoBorrowedPort(critical, fake)
    requires d in critical && e in critical && d.alias == e.alias && d.port != e.port
    ensures !Matches(g.defines, g.criticalChain, d.port) || !Matches(g.defines, g.criticalChain, e.port)
  {
    PortKeptExactly(critical, fake, g, headerOrder, chainOrder, fakeOrder, d);
    PortKeptExactly(critical, fake, g, headerOrder, chainOrder, fakeOrder, e);
  }

  /**
   * Validation looks neither at macros nor at decoys. For a list it accepts, the generated check is right if and
   * only if every protected port's macro stands for that port once the decoys have been defined too.
   */
  lemma CheckExactly(critical: seq<PortDefinition>, fake: seq<PortDefinition>, g: Generated,
                     headerOrder: seq<PortDefinition>, chainOrder: seq<PortDefinition>, fakeOrder: seq<PortDefinition>)
    requires Emitted(critical, fake, g, headerOrder, chainOrder, fakeOrder)
    requires DistinctPorts(critical) && InRange(critical) && NoBorrowedPort(critical, fake)
    ensures CheckIsExact(g, critical) <==> forall d :: d in critical ==> StandsFor(g, d)
  {
    hide Emitted, Matches, Expand, DistinctPorts, InRange;
    if CheckIsExact(g, critical) {
      forall d | d in critical
        ensures StandsFor(g, d)
      {
        PortInRange(critical, d);
        PortKeptExactly(critical, fake, g, headerOrder, chainOrder, fakeOrder, d);
      }
    }
    if forall d :: d in critical ==> StandsFor(g, d) {
      forall p: u16
        ensures Matches(g.defines, g.criticalChain, p) <==> p in PortsOf(critical)
      {
        MatchesByDefinition(critical, fake, g, headerOrder, chainOrder, fakeOrder, p);
        PortHasDefinition(critical, p);
        assert forall d :: d in critical ==> StandsFor(g, d);
      }
    }
  }

  lemma PortInRange(critical: seq<PortDefinition>, d: PortDefinition)
    requires InRange(critical) && d in critical
    ensures 1 <= d.port <= 65535 && d.port in PortsOf(critical)
  {
    PortHasDefinition(critical, d.port);
  }

  /** When the decoys leave the protected ports' macros alone, that is agreement among the protected definitions. */
  lemma CheckExactlyIfDecoysAgree(critical: seq<PortDefinition>, fake: seq<PortDefinition>, g: Generated,
                                  headerOrder: seq<PortDefinition>, chainOrder: seq<PortDefinition>,
                                  fakeOrder: seq<PortDefinition>)
    requires Emitted(critical, fake, g, headerOrder, chainOrder, fakeOrder)
    requires DistinctPorts(critical) && InRange(critical) && DecoysAgree(critical, fake)
    ensures CheckIsExact(g, critical) <==> AliasesAgree(critical, critical)
  {
    forall u, c | u in fake && c in critical && u.alias == c.alias
      ensures c.port == u.port
    {
      assert AliasAgrees(c, fake);
    }
    assert NoBorrowedPort(critical, fake);
    CheckExactly(critical, fake, g, headerOrder, chainOrder, fakeOrder);
    if AliasesAgree(critical, critical) {
      forall d | d in critical
        ensures StandsFor(g, d)
      {
        var u := ExpandsToUser(critical, fake, g, headerOrder, chainOrder, fakeOrder, d);
        assert AliasAgrees(d, critical) && AliasAgrees(d, fake);
      }
    }
  }

  /** What the protected definitions' macros stand for, in list order. */
  function Meanings(g: Generated, critical: seq<PortDefinition>): seq<Option<int>> {
    seq(|critical|, i requires 0 <= i < |critical| => Expand(g.defines, critical[i].alias))
  }

  function Elements<T(==)>(s: seq<T>): set<T> {
    set x | x in s
  }

  ghost predicate NoRepeats<T>(s: seq<T>) {
    forall i, j :: 0 <= i < j < |s| ==> s[i] != s[j]
  }

  /** A sequence has at most as many elements as places, and as many if and only if none repeats. */
  lemma {:induction false} ElementCount<T>(s: seq<T>)
    ensures |Elements(s)| <= |s| && (|Elements(s)| == |s| <==> NoRepeats(s))
  {
    if s != [] {
      var init, last := s[..|s| - 1], s[|s| - 1];
      assert s == init + [last];
      ElementCount(init);
      assert Elements(s) == Elements(init) + {last};
      if last in init {
        assert Elements(s) == Elements(init);
      }
    }
  }

  lemma {:induction false} SubsetCount<T>(a: set<T>, b: set<T>)
    requires a <= b
    ensures |a| <= |b| && (|a| == |b| ==> a == b)
  {
    if a != {} {
      var x :| x in a;
      SubsetCount(a - {x}, b - {x});
    }
  }

  function Somes(ports: seq<int>): seq<Option<int>> {
    seq(|ports|, i requires 0 <= i < |ports| => Some(ports[i]))
  }

  /** The check is right if and only if the macros' meanings are the protected ports, in some order. */
  lemma ExactByElements(critical: seq<PortDefinition>, fake: seq<PortDefinition>, g: Generated,
                        headerOrder: seq<PortDefinition>, chainOrder: seq<PortDefinition>,
                        fakeOrder: seq<PortDefinition>)
    requires Emitted(critical, fake, g, headerOrder, chainOrder, fakeOrder) && InRange(critical)
    ensures Elements(Meanings(g, critical)) == Elements(Somes(PortsOf(critical))) ==> CheckIsExact(g, critical)
    ensures CheckIsExact(g, critical) ==> Elements(Somes(PortsOf(critical))) <= Elements(Meanings(g, critical))
  {
    hide Emitted, Matches, Expand;
    var meant, ports := Meanings(g, critical), Somes(PortsOf(critical));
    forall p: u16
      ensures Matches(g.defines, g.criticalChain, p) <==> Some(p) in Elements(meant)
      ensures p in PortsOf(critical) <==> Some(p) in Elements(ports)
    {
      MatchesByDefinition(critical, fake, g, headerOrder, chainOrder, fakeOrder, p);
      MeantByDefinition(g, critical, p);
      PortAmongSomes(PortsOf(critical), p);
    }
    forall o | o in Elements(ports)
      ensures o.Some? && 0 <= o.value < 0x1_0000
    {
      var i :| 0 <= i < |ports| && ports[i] == o;
      assert critical[i] in critical;
    }
  }

  lemma MeantByDefinition(g: Generated, critical: seq<PortDefinition>, p: int)
    ensures Some(p) in Meanings(g, critical) <==> exists c :: c in critical && Expand(g.defines, c.alias) == Some(p)
  {
    if exists c :: c in critical && Expand(g.defines, c.alias) == Some(p) {
      var c :| c in critical && Expand(g.defines, c.alias) == Some(p);
      var i :| 0 <= i < |critical| && critical[i] == c;
      assert Meanings(g, critical)[i] == Some(p);
    }
    if Some(p) in Meanings(g, critical) {
      var i :| 0 <= i < |critical| && Meanings(g, critical)[i] == Some(p);
      assert critical[i] in critical;
    }
  }

  lemma PortAmongSomes(ports: seq<int>, p: int)
    ensures p in ports <==> Some(p) in Somes(ports)
  {
    if p in ports {
      var i :| 0 <= i < |ports| && ports[i] == p;
      assert Somes(ports)[i] == Some(p);
    }
  }

  /** Every protected port's macro stands for some protected port, and no two of them for the same one. */
  ghost predicate MacrosKeepPorts(g: Generated, critical: seq<PortDefinition>) {
    && Elements(Meanings(g, critical)) <= Elements(Somes(PortsOf(critical)))
    && NoRepeats(Meanings(g, critical))
  }

  /**
   * Whatever the decoys are: for a list that validation accepts, the check is right if and only if every protected
   * port's macro stands for some protected port and no two of them for the same one.
   */
  lemma CheckExactlyForAnyDecoys(critical: seq<PortDefinition>, fake: seq<PortDefinition>, g: Generated,
                                 headerOrder: seq<PortDefinition>, chainOrder: seq<PortDefinition>,
                                 fakeOrder: seq<PortDefinition>)
    requires Emitted(critical, fake, g, headerOrder, chainOrder, fakeOrder)
    requires DistinctPorts(critical) && InRange(critical)
    ensures CheckIsExact(g, critical) <==> MacrosKeepPorts(g, critical)
  {
    hide Emitted, Matches, Expand, CheckIsExact;
    var meant, ports := Meanings(g, critical), Somes(PortsOf(critical));
    ExactByElements(critical, fake, g, headerOrder, chainOrder, fakeOrder);
    ElementCount(meant);
    ElementCount(ports);
    PortsDiffer(critical);
    if Elements(meant) <= Elements(ports) {
      SubsetCount(Elements(meant), Elements(ports));
    }
    if Elements(ports) <= Elements(meant) {
      SubsetCount(Elements(ports), Elements(meant));
    }
  }

  lemma PortsDiffer(critical: seq<PortDefinition>)
    requires DistinctPorts(critical)
    ensures NoRepeats(Somes(PortsOf(critical)))
  {
  }

  lemma ExpandLast(defines: seq<Define>, d: Define, alias: string)
    ensures Expand(defines + [d], alias) == if d.alias == alias then Some(d.value) else Expand(defines, alias)
  {
    assert (defines + [d])[..|defines|] == defines;
  }

  /**
   * A decoy can take a protected port's macro away, as the shipped lists come close to doing with FTP_PORT: the check
   * then leaves the port unprotected and protects the decoy.
   */
  lemma DecoyTakesMacro(ftp: PortDefinition, decoy: PortDefinition)
    requires ftp.port == 21 && ftp.alias == "FTP_PORT" && decoy.port == 2121 && decoy.alias == "FTP_PORT"
    ensures var g := Emit([ftp], [ftp], [decoy]);
            && DistinctPorts([ftp]) && InRange([ftp]) && NoBorrowedPort([ftp], [decoy])
            && !Matches(g.defines, g.criticalChain, 21) && Matches(g.defines, g.criticalChain, 2121)
  {
    var g := Emit([ftp], [ftp], [decoy]);
    assert g.defines[|g.defines| - 1] == Define("FTP_PORT", 2121);
    assert g.criticalChain == ["FTP_PORT"];
    assert PortsOf([ftp]) == [21];
  }

  /** Why borrowed ports are set apart: decoys that swap two protected ports' macros leave the check right. */
  lemma SwappedMacrosStillExact(a: PortDefinition, b: PortDefinition, c: PortDefinition, d: PortDefinition)
    requires a.port == d.port == 21 && b.port == c.port == 22 && a.alias == c.alias == "A" && b.alias == d.alias == "B"
    ensures var g := Emit([a, b], [a, b], [c, d]);
            CheckIsExact(g, [a, b]) && !StandsFor(g, a) && !StandsFor(g, b)
  {
    var g := Emit([a, b], [a, b], [c, d]);
    var before := FIXED_DEFINES + DefinesOf([a, b]);
    assert g.defines == before + [Define("A", 22)] + [Define("B", 21)];
    ExpandLast(before, Define("A", 22), "A");
    ExpandLast(before + [Define("A", 22)], Define("B", 21), "A");
    ExpandLast(before + [Define("A", 22)], Define("B", 21), "B");
    assert Expand(g.defines, "A") == Some(22) && Expand(g.defines, "B") == Some(21);
    assert g.criticalChain == ["A", "B"] && g.criticalChain[1..] == ["B"] && ["B"][1..] == [];
    assert PortsOf([a, b]) == [21, 22];
    forall p: u16
      ensures Matches(g.defines, g.criticalChain, p) <==> p in PortsOf([a, b])
    {
      assert !Matches(g.defines, [], p);
      assert Matches(g.defines, ["B"], p) <==> p == 21;
      assert Matches(g.defines, ["A", "B"], p) <==> p == 22 || p == 21;
    }
  }

  // ---------------------------------------------------------------- the shipped configuration

  /** The table the XDP program tests against, as the generated functions define it. */
  function TableOf(g: Generated): Gate.PortTable {
    Gate.PortTable(set p: u16 | 0 <= p < 0x1_0000 && Matches(g.defines, g.criticalChain, p),
                   set p: u16 | 0 <= p < 0x1_0000 && Matches(g.defines, g.fakeChain, p))
  }

  /** The shipped macros told apart by length and second character, with the port each stands for. */
  function ShippedPort(key: int): int {
    if key == 8078 then 5900 else if key == 8083 then 22 else if key == 8084 then 21
    else if key == 9084 then 80 else if key == 10084 then 443 else if key == 11069 then 23
    else if key == 13068 then 3389 else if key == 15069 then 6379 else if key == 15076 then 5000
    else if key == 15083 then 1433 else if key == 15089 then 3306 else if key == 16073 then 5601
    else if key == 16074 then 8000 else if key == 16079 then 3000 else if key == 16082 then 1521
    else if key == 17079 then 27017 else if key == 17085 then 8888 else if key == 18079 then 5432
    else if key == 19069 then 11211 else if key == 19084 then 8443 else if key == 21068 then 8080
    else if key == 22079 then 5433 else if key == 23068 then 9000 else if key == 23076 then 9200
    else if key == 23079 then 27018
    else 0
  }

  predicate HasShippedPort(d: PortDefinition) {
    |d.alias| >= 2 && ShippedPort(1000 * |d.alias| + d.alias[1] as int) == d.port
  }

  lemma ShippedCriticalKeys()
    ensures forall d :: d in CRITICAL_PORT_DEFINITIONS ==> HasShippedPort(d)
  {
  }

  lemma ShippedFakeKeys()
    ensures forall d :: d in FAKE_PORT_DEFINITIONS ==> HasShippedPort(d)
  {
    forall i | 0 <= i < |FAKE_PORT_DEFINITIONS|
      ensures HasShippedPort(FAKE_PORT_DEFINITIONS[i])
    {
    }
  }

  lemma KeysAgree(used: seq<PortDefinition>, defs: seq<PortDefinition>)
    requires forall d :: d in used ==> HasShippedPort(d)
    requires forall d :: d in defs ==> HasShippedPort(d)
    ensures AliasesAgree(used, defs)
  {
  }

  /** In the shipped lists every macro stands for one port. */
  lemma ShippedAliasesAgree(critical: seq<PortDefinition>, fake: seq<PortDefinition>)
    requires critical == CRITICAL_PORT_DEFINITIONS && fake == FAKE_PORT_DEFINITIONS
    ensures AliasesAgree(critical + fake, critical + fake)
  {
    ShippedCriticalKeys();
    ShippedFakeKeys();
    KeysAgree(critical + fake, critical + fake);
  }

  const SHIPPED_DECOYS: set<u16> :=
    {80, 443, 3306, 5432, 6379, 27017, 8080, 8443, 9000, 21, 23, 3389, 5900, 1433, 1521, 5433, 11211, 27018,
     9200, 5601, 3000, 5000, 8000, 8888}

  /** The shipped critical list passes validation and protects two ports. */
  lemma ShippedCriticalList()
    ensures DistinctPorts(CRITICAL_PORT_DEFINITIONS) && InRange(CRITICAL_PORT_DEFINITIONS)
    ensures forall p :: p in PortsOf(CRITICAL_PORT_DEFINITIONS) <==> p in {21, 22}
  {
    assert PortsOf(CRITICAL_PORT_DEFINITIONS) == [21, 22];
  }

  lemma ShippedFakeList()
    ensures forall p :: p in PortsOf(FAKE_PORT_DEFINITIONS) <==> p in SHIPPED_DECOYS
  {
    var ports := [80, 443, 3306, 5432, 6379, 27017, 8080, 8443, 9000, 21, 23, 3389, 5900, 1433, 1521, 5433, 11211,
                  27018, 9200, 5601, 3000, 5000, 8000, 8888];
    assert PortsOf(FAKE_PORT_DEFINITIONS) == ports;
    assert forall p :: p in ports <==> p in SHIPPED_DECOYS;
  }

  /**
   * What the shipped configuration generates, in whatever order grouping and sorting leave the definitions:
   * ports 21 and 22 are protected, and the decoys are the 24 listed ports.
   */
  lemma ShippedChecks(critical: seq<PortDefinition>, fake: seq<PortDefinition>, g: Generated,
                      headerOrder: seq<PortDefinition>, chainOrder: seq<PortDefinition>,
                      fakeOrder: seq<PortDefinition>, p: u16)
    requires critical == CRITICAL_PORT_DEFINITIONS && fake == FAKE_PORT_DEFINITIONS
    requires multiset(headerOrder) == multiset(critical) && multiset(chainOrder) == multiset(critical)
    requires multiset(fakeOrder) == multiset(fake)
    requires g == Emit(headerOrder, chainOrder, fakeOrder)
    ensures Matches(g.defines, g.criticalChain, p) <==> p in {21, 22}
    ensures Matches(g.defines, g.fakeChain, p) <==> p in SHIPPED_DECOYS
  {
    hide CRITICAL_PORT_DEFINITIONS, FAKE_PORT_DEFINITIONS;
    ShippedAliasesAgree(critical, fake);
    ShippedCriticalList();
    ShippedFakeList();
    GeneratedMeaning(critical, fake, g, headerOrder, chainOrder, fakeOrder, p);
  }

  /** So the XDP program of the shipped configuration runs with this table. */
  lemma ShippedTable(g: Generated, headerOrder: seq<PortDefinition>, chainOrder: seq<PortDefinition>,
                     fakeOrder: seq<PortDefinition>)
    requires multiset(headerOrder) == multiset(CRITICAL_PORT_DEFINITIONS)
    requires multiset(chainOrder) == multiset(CRITICAL_PORT_DEFINITIONS)
    requires multiset(fakeOrder) == multiset(FAKE_PORT_DEFINITIONS)
    requires g == Emit(headerOrder, chainOrder, fakeOrder)
    ensures TableOf(g) == Gate.PortTable({21, 22}, SHIPPED_DECOYS)
  {
    hide CRITICAL_PORT_DEFINITIONS, FAKE_PORT_DEFINITIONS, SHIPPED_DECOYS, Matches;
    forall p: u16
      ensures p in TableOf(g).critical <==> p in {21, 22}
      ensures p in TableOf(g).fake <==> p in SHIPPED_DECOYS
    {
      ShippedChecks(CRITICAL_PORT_DEFINITIONS, FAKE_PORT_DEFINITIONS, g, headerOrder, chainOrder, fakeOrder, p);
    }
  }
}
