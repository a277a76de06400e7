/** The roles of a host, an index that has to agree with the role groups it is built from: `ApplyRoleGroupsToHosts`,
    `uniqueRoles` and `ValidateRoleGroupHosts` of internal/config/helpers.go. */
module RoleIndex {
  import opened Sequences
  import opened Wrappers

  /** The role groups of a cluster; `Absent` is the nil pointer. */
  datatype RoleGroups =
    | Absent
    | RoleGroups(master: seq<string>, worker: seq<string>, etcd: seq<string>, loadBalancer: seq<string>,
                 storage: seq<string>, registry: seq<string>)

  datatype HostSpec = HostSpec(name: string, roles: seq<string>, roleTable: map<string, bool>)

  datatype Group = Group(role: string, members: seq<string>)

  /** The groups in the order in which their roles are given out. */
  function InOrder(g: RoleGroups): seq<Group> {
    match g
    case Absent => []
    case RoleGroups(master, worker, etcd, loadBalancer, storage, registry) =>
      [Group("master", master), Group("worker", worker), Group("etcd", etcd),
       Group("loadbalancer", loadBalancer), Group("storage", storage), Group("registry", registry)]
  }

  /** The roles are different from one another, and none is the empty string. */
  ghost predicate ProperRoles(groups: seq<Group>) {
    && (forall i, j :: 0 <= i < j < |groups| ==> groups[i].role != groups[j].role)
    && (forall i :: 0 <= i < |groups| ==> groups[i].role != "")
  }

  lemma OrderIsProper(g: RoleGroups)
    ensures ProperRoles(InOrder(g))
  {
    if g.RoleGroups? {
      var groups := InOrder(g);
      assert |groups[0].role| == 6 && |groups[1].role| == 6 && |groups[2].role| == 4
        && |groups[3].role| == 12 && |groups[4].role| == 7 && |groups[5].role| == 8;
      assert groups[0].role[0] == 'm' && groups[1].role[0] == 'w';
    }
  }

  // Dropping duplicates and empty names

  /** The non-empty names of `names` without repetition, in order of first occurrence. */
  ghost function Unique(names: seq<string>): seq<string> {
    if names == [] then []
    else
      var init, last := names[..|names| - 1], names[|names| - 1];
      Unique(init) + (if last == "" || last in init then [] else [last])
  }

  /** The position at which `name` first occurs. */
  ghost function First(names: seq<string>, name: string): (i: nat)
    requires name in names
    ensures i < |names| && names[i] == name && name !in names[..i]
  {
    if names[0] == name then 0
    else
      var rest := First(names[1..], name);
      assert names[..rest + 1] == [names[0]] + names[1..][..rest];
      rest + 1
  }

  lemma {:induction false} FirstIs(names: seq<string>, name: string, i: nat)
    requires i < |names| && names[i] == name && name !in names[..i]
    ensures First(names, name) == i
  {
    if i > 0 {
      assert names[0] in names[..i];
      assert names[..i] == [names[0]] + names[1..][..i - 1];
      FirstIs(names[1..], name, i - 1);
    }
  }

  /** What dropping duplicates keeps: every non-empty name, once, and in the order of first occurrence. */
  lemma {:induction false} UniqueKeepsFirsts(names: seq<string>)
    ensures forall name :: name in Unique(names) <==> name in names && name != ""
    ensures Distinct(Unique(names))
    ensures forall i, j :: 0 <= i < j < |Unique(names)| ==>
      First(names, Unique(names)[i]) < First(names, Unique(names)[j])
  {
    if names == [] {
    } else {
      var init, last := names[..|names| - 1], names[|names| - 1];
      UniqueKeepsFirsts(init);
      assert names == init + [last];
      var kept := Unique(init);
      forall k | 0 <= k < |kept| ensures First(names, kept[k]) == First(init, kept[k]) {
        assert kept[k] in kept;
        var i := First(init, kept[k]);
        assert names[..i] == init[..i];
        FirstIs(names, kept[k], i);
      }
      if last !in init {
        FirstIs(names, last, |init|);
      }
    }
  }

  method UniqueRoles(roles: seq<string>) returns (unique: seq<string>)
    ensures unique == Unique(roles)
  {
    var seen := {};
    unique := [];
    for i := 0 to |roles|
      invariant forall role :: role in seen <==> role in roles[..i] && role != ""
      invariant unique == Unique(roles[..i])
    {
      var role := roles[i];
      assert roles[..i + 1][..i] == roles[..i];
      if role == "" || role in seen {
        continue;
      }
      seen := seen + {role};
      unique := unique + [role];
    }
    assert roles[..|roles|] == roles;
  }

  // The role map

  /** The entry of a map of lists, the empty list when there is none. */
  function Entry(table: map<string, seq<string>>, name: string): seq<string> {
    if name in table then table[name] else []
  }

  ghost function Copies(role: string, n: nat): seq<string> {
    if n == 0 then [] else Copies(role, n - 1) + [role]
  }

  /** How often the name is listed. */
  ghost function Times(members: seq<string>, name: string): nat {
    multiset(members)[name]
  }

  lemma TimesOfMore(members: seq<string>, last: string, name: string)
    ensures Times(members + [last], name) == Times(members, name) + (if name == last then 1 else 0)
  {
  }

  /** Each name's list has grown by one copy of the role for every time it is a member. */
  ghost predicate Grown(before: map<string, seq<string>>, after: map<string, seq<string>>, role: string,
                        members: seq<string>) {
    forall name :: GrownAt(before, after, role, members, name)
  }

  ghost predicate GrownAt(before: map<string, seq<string>>, after: map<string, seq<string>>, role: string,
                          members: seq<string>, name: string) {
    Entry(after, name) == Entry(before, name) + Copies(role, Times(members, name))
  }

  lemma GrownByOne(before: map<string, seq<string>>, after: map<string, seq<string>>, role: string,
                   members: seq<string>, last: string, name: string)
    requires GrownAt(before, after, role, members, name)
    ensures GrownAt(before, after[last := Entry(after, last) + [role]], role, members + [last], name)
  {
    EntryOfUpdate(after, last, Entry(after, last) + [role], name);
    TimesOfMore(members, last, name);
    CopyAdded(Entry(before, name), role, Times(members, name));
  }

  lemma EntryOfUpdate(table: map<string, seq<string>>, key: string, value: seq<string>, name: string)
    ensures Entry(table[key := value], name) == if name == key then value else Entry(table, name)
  {
  }

  lemma CopyAdded(names: seq<string>, role: string, n: nat)
    ensures names + Copies(role, n) + [role] == names + Copies(role, n + 1)
  {
    assert Copies(role, n + 1) == Copies(role, n) + [role];
  }

  method AppendRoles(table: map<string, seq<string>>, group: Group) returns (extended: map<string, seq<string>>)
    ensures Grown(table, extended, group.role, group.members)
  {
    extended := table;
    for i := 0 to |group.members|
      invariant Grown(table, extended, group.role, group.members[..i])
    {
      var name := group.members[i];
      var next := extended[name := Entry(extended, name) + [group.role]];
      ghost var upTo := group.members[..i + 1];
      assert upTo == group.members[..i] + [name];
      forall other ensures GrownAt(table, next, group.role, upTo, other) {
        assert GrownAt(table, extended, group.role, group.members[..i], other);
        GrownByOne(table, extended, group.role, group.members[..i], name, other);
      }
      extended := next;
    }
    assert group.members[..|group.members|] == group.members;
  }

  /** The role map's entry for `name` once the groups have been appended: a group's role as often as it lists
      the name. */
  ghost function Listed(groups: seq<Group>, name: string): seq<string> {
    if groups == [] then []
    else
      var last := groups[|groups| - 1];
      Listed(groups[..|groups| - 1], name) + Copies(last.role, Times(last.members, name))
  }

  /** The table is the role map of the groups. */
  ghost predicate MapsTo(table: map<string, seq<string>>, groups: seq<Group>) {
    forall name :: Entry(table, name) == Listed(groups, name)
  }

  lemma MapsToMore(table: map<string, seq<string>>, next: map<string, seq<string>>, groups: seq<Group>, last: Group)
    requires MapsTo(table, groups) && Grown(table, next, last.role, last.members)
    ensures MapsTo(next, groups + [last])
  {
    var all := groups + [last];
    assert all[..|all| - 1] == groups;
    forall name ensures Entry(next, name) == Listed(all, name) {
      assert Entry(table, name) == Listed(groups, name);
      assert GrownAt(table, next, last.role, last.members, name);
    }
  }

  /** The roles of the groups that list `name`, in group order. */
  ghost function RolesOf(groups: seq<Group>, name: string): seq<string> {
    if groups == [] then []
    else
      var last := groups[|groups| - 1];
      RolesOf(groups[..|groups| - 1], name) + (if name in last.members then [last.role] else [])
  }

  /** Some group with this role lists the name. */
  ghost predicate Lists(groups: seq<Group>, role: string, name: string) {
    exists i :: 0 <= i < |groups| && groups[i].role == role && name in groups[i].members
  }

  lemma {:induction false} UniqueOfCopies(names: seq<string>, role: string, n: nat)
    requires role != "" && role !in names
    ensures Unique(names + Copies(role, n)) == Unique(names) + (if n > 0 then [role] else [])
  {
    if n == 0 {
      assert names + Copies(role, n) == names;
    } else {
      UniqueOfCopies(names, role, n - 1);
      var init := names + Copies(role, n - 1);
      var all := names + Copies(role, n);
      assert all == init + [role] && all[..|all| - 1] == init;
      assert n > 1 ==> init[|init| - 1] == role;
    }
  }

  lemma {:induction false} ListedRoles(groups: seq<Group>, name: string, role: string)
    requires role in Listed(groups, name)
    ensures exists i :: 0 <= i < |groups| && groups[i].role == role
  {
    var init, last := groups[..|groups| - 1], groups[|groups| - 1];
    if role in Listed(init, name) {
      ListedRoles(init, name, role);
      var i :| 0 <= i < |init| && init[i].role == role;
      assert groups[i].role == role;
    } else {
      CopiesAre(last.role, Times(last.members, name), role);
      assert groups[|groups| - 1].role == role;
    }
  }

  lemma {:induction false} CopiesAre(role: string, n: nat, other: string)
    requires other in Copies(role, n)
    ensures other == role
  {
    if other in Copies(role, n - 1) {
      CopiesAre(role, n - 1, other);
    }
  }

  /** Without duplicates, the role map's entry is the list of the groups that mention the name. */
  lemma {:induction false} UniqueListed(groups: seq<Group>, name: string)
    requires ProperRoles(groups)
    ensures Unique(Listed(groups, name)) == RolesOf(groups, name)
    ensures Listed(groups, name) == [] <==> RolesOf(groups, name) == []
  {
    if groups == [] {
    } else {
      var init, last := groups[..|groups| - 1], groups[|groups| - 1];
      UniqueListed(init, name);
      if last.role in Listed(init, name) {
        ListedRoles(init, name, last.role);
        assert false;
      }
      UniqueOfCopies(Listed(init, name), last.role, Times(last.members, name));
    }
  }

  // What the roles of a host have to be

  /** `roles` names the groups that list `name`, each once and in group order. */
  ghost predicate AgreesWithGroups(groups: seq<Group>, name: string, roles: seq<string>) {
    && (forall role :: role in roles <==> Lists(groups, role, name))
    && (forall i, j :: 0 <= i < j < |roles| ==> RoleBefore(groups, roles[i], roles[j]))
  }

  /** The group with role `a` comes before the group with role `b`. */
  ghost predicate RoleBefore(groups: seq<Group>, a: string, b: string) {
    exists i, j :: 0 <= i < j < |groups| && groups[i].role == a && groups[j].role == b
  }

  lemma ListsCases(groups: seq<Group>, role: string, name: string)
    requires groups != []
    ensures
      var init, last := groups[..|groups| - 1], groups[|groups| - 1];
      Lists(groups, role, name) <==> Lists(init, role, name) || (role == last.role && name in last.members)
  {
    var init, last := groups[..|groups| - 1], groups[|groups| - 1];
    if Lists(init, role, name) {
      var i :| 0 <= i < |init| && init[i].role == role && name in init[i].members;
      assert groups[i] == init[i];
    }
    if role == last.role && name in last.members {
      assert groups[|groups| - 1].role == role;
    }
    if Lists(groups, role, name) {
      var i :| 0 <= i < |groups| && groups[i].role == role && name in groups[i].members;
      assert i < |init| ==> init[i] == groups[i];
    }
  }

  lemma BeforeInPrefix(groups: seq<Group>, k: nat, a: string, b: string)
    requires k <= |groups| && RoleBefore(groups[..k], a, b)
    ensures RoleBefore(groups, a, b)
  {
    var init := groups[..k];
    var i, j :| 0 <= i < j < |init| && init[i].role == a && init[j].role == b;
    assert groups[i].role == a && groups[j].role == b;
  }

  lemma {:induction false} RolesAgree(groups: seq<Group>, name: string)
    requires ProperRoles(groups)
    ensures AgreesWithGroups(groups, name, RolesOf(groups, name))
  {
    if groups == [] {
    } else {
      var init, last := groups[..|groups| - 1], groups[|groups| - 1];
      RolesAgree(init, name);
      var before, roles := RolesOf(init, name), RolesOf(groups, name);
      forall role ensures role in roles <==> Lists(groups, role, name) {
        ListsCases(groups, role, name);
        assert Lists(init, role, name) <==> role in before;
      }
      forall i, j | 0 <= i < j < |roles| ensures RoleBefore(groups, roles[i], roles[j]) {
        if j < |before| {
          BeforeInPrefix(groups, |init|, before[i], before[j]);
        } else {
          assert before[i] in before;
          assert Lists(init, before[i], name);
          var k :| 0 <= k < |init| && init[k].role == before[i] && name in init[k].members;
          assert groups[k].role == roles[i] && groups[|groups| - 1].role == roles[j];
        }
      }
    }
  }

  lemma BeforeIsStrict(groups: seq<Group>, a: string, b: string)
    requires ProperRoles(groups) && RoleBefore(groups, a, b)
    ensures a != b && !RoleBefore(groups, b, a)
  {
    var i, j :| 0 <= i < j < |groups| && groups[i].role == a && groups[j].role == b;
    assert forall l, m :: 0 <= l < m < |groups| && groups[l].role == b ==> groups[m].role != a;
  }

  /** Agreement leaves no choice: two lists that agree with the same groups are equal. */
  lemma {:induction false} AgreementIsUnique(groups: seq<Group>, name: string, a: seq<string>, b: seq<string>, k: nat)
    requires ProperRoles(groups)
    requires AgreesWithGroups(groups, name, a) && AgreesWithGroups(groups, name, b)
    requires k <= |a| && k <= |b| && a[..k] == b[..k]
    ensures a == b
    decreases |a| - k
  {
    if k == |a| || k == |b| {
      if k < |b| {
        NextIsElsewhere(groups, name, b, a, k);
      } else if k < |a| {
        NextIsElsewhere(groups, name, a, b, k);
      } else {
        assert a == a[..k] && b == b[..k];
      }
    } else {
      NextIsElsewhere(groups, name, a, b, k);
      NextIsElsewhere(groups, name, b, a, k);
      var i :| k <= i < |b| && b[i] == a[k];
      var j :| k <= j < |a| && a[j] == b[k];
      if a[k] != b[k] {
        assert false;
      }
      assert a[..k + 1] == a[..k] + [a[k]] && b[..k + 1] == b[..k] + [b[k]];
      AgreementIsUnique(groups, name, a, b, k + 1);
    }
  }

  /** Past a common prefix, the next role of one list occurs in the rest of the other. */
  lemma NextIsElsewhere(groups: seq<Group>, name: string, a: seq<string>, b: seq<string>, k: nat)
    requires ProperRoles(groups)
    requires AgreesWithGroups(groups, name, a) && AgreesWithGroups(groups, name, b)
    requires k < |a| && k <= |b| && a[..k] == b[..k]
    ensures exists i :: k <= i < |b| && b[i] == a[k]
  {
    assert a[k] in a;
    assert Lists(groups, a[k], name);
    var i :| 0 <= i < |b| && b[i] == a[k];
    if i < k {
      assert a[i] == a[..k][i] == b[i];
      assert RoleBefore(groups, a[i], a[k]);
      BeforeIsStrict(groups, a[i], a[k]);
      assert false;
    }
  }

  // Applying the groups to the hosts

  /** A host that no group lists stays as it is; any other has the roles of its groups, once each and in group
      order, and a table that holds exactly those roles. */
  ghost predicate Applied(groups: seq<Group>, before: HostSpec, after: HostSpec) {
    && after.name == before.name
    && if forall role :: !Lists(groups, role, before.name) then after == before else
       && AgreesWithGroups(groups, after.name, after.roles)
       && TableHolds(after.roleTable, after.roles)
  }

  ghost predicate AllApplied(groups: seq<Group>, before: seq<HostSpec>, after: seq<HostSpec>) {
    && |after| == |before|
    && forall i :: 0 <= i < |before| ==> Applied(groups, before[i], after[i])
  }

  ghost predicate TableHolds(table: map<string, bool>, roles: seq<string>) {
    && (forall role :: role in table <==> role in roles)
    && (forall role :: role in table ==> table[role])
  }

  lemma TableIsUnique(a: map<string, bool>, b: map<string, bool>, roles: seq<string>)
    requires TableHolds(a, roles) && TableHolds(b, roles)
    ensures a == b
  {
    assert forall role :: role in a.Keys <==> role in b.Keys;
  }

  /** The result is determined: there is one way to apply the groups to a host. */
  lemma AppliedIsUnique(groups: seq<Group>, before: HostSpec, a: HostSpec, b: HostSpec)
    requires ProperRoles(groups)
    requires Applied(groups, before, a) && Applied(groups, before, b)
    ensures a == b
  {
    if exists role :: Lists(groups, role, before.name) {
      AgreementIsUnique(groups, before.name, a.roles, b.roles, 0);
      TableIsUnique(a.roleTable, b.roleTable, a.roles);
    }
  }

  /** The role map built by appending the groups one after the other. */
  method RoleMap(groups: seq<Group>) returns (table: map<string, seq<string>>)
    ensures MapsTo(table, groups)
  {
    table := map[];
    for i := 0 to |groups|
      invariant MapsTo(table, groups[..i])
    {
      var extended := AppendRoles(table, groups[i]);
      MapsToMore(table, extended, groups[..i], groups[i]);
      assert groups[..i + 1] == groups[..i] + [groups[i]];
      table := extended;
    }
    assert groups[..|groups|] == groups;
  }

  method TableOf(roles: seq<string>) returns (table: map<string, bool>)
    ensures TableHolds(table, roles)
  {
    table := map[];
    for i := 0 to |roles|
      invariant TableHolds(table, roles[..i])
    {
      table := table[roles[i] := true];
    }
    assert roles[..|roles|] == roles;
  }

  /** A host with the roles that the role map lists for its name. */
  method IndexHost(host: HostSpec, roles: seq<string>, ghost groups: seq<Group>) returns (indexed: HostSpec)
    requires ProperRoles(groups) && roles == Listed(groups, host.name)
    ensures Applied(groups, host, indexed)
  {
    UniqueListed(groups, host.name);
    RolesAgree(groups, host.name);
    ghost var expected := RolesOf(groups, host.name);
    if |roles| == 0 {
      assert forall role :: Lists(groups, role, host.name) ==> role in expected;
      indexed := host;
    } else {
      assert expected[0] in expected;
      assert Lists(groups, expected[0], host.name);
      var unique := UniqueRoles(roles);
      var table := TableOf(unique);
      indexed := HostSpec(host.name, unique, table);
    }
  }

  /** Indexes one host of the slice and no other. */
  method IndexAt(table: map<string, seq<string>>, hosts: array<HostSpec>, i: nat, ghost groups: seq<Group>)
    requires ProperRoles(groups) && MapsTo(table, groups) && i < hosts.Length
    modifies hosts
    ensures Applied(groups, old(hosts[i]), hosts[i])
    ensures forall k :: 0 <= k < hosts.Length && k != i ==> hosts[k] == old(hosts[k])
  {
    var host := hosts[i];
    var roles := Entry(table, host.name);
    var indexed := IndexHost(host, roles, groups);
    hosts[i] := indexed;
  }

  // ----- The same, role by role ---------------------------------------------------------

  function Part(role: string, members: seq<string>, name: string): seq<string> {
    if name in members then [role] else []
  }

  /** The roles of a host of this name: each of the six if its group lists the name, in their
      fixed order. */
  function RolesFor(g: RoleGroups, name: string): seq<string>
    requires g.RoleGroups?
  {
    Part("master", g.master, name) + Part("worker", g.worker, name) + Part("etcd", g.etcd, name)
    + Part("loadbalancer", g.loadBalancer, name) + Part("storage", g.storage, name)
    + Part("registry", g.registry, name)
  }

  lemma RolesOfMore(groups: seq<Group>, last: Group, name: string)
    ensures RolesOf(groups + [last], name) == RolesOf(groups, name) + Part(last.role, last.members, name)
  {
    assert (groups + [last])[..|groups|] == groups;
  }

  lemma RolesOfThree(before: seq<Group>, a: Group, b: Group, c: Group, name: string)
    ensures RolesOf(before + [a] + [b] + [c], name)
            == RolesOf(before, name) + Part(a.role, a.members, name) + Part(b.role, b.members, name)
               + Part(c.role, c.members, name)
  {
    RolesOfMore(before, a, name);
    RolesOfMore(before + [a], b, name);
    RolesOfMore(before + [a] + [b], c, name);
  }

  lemma RolesInOrder(g: RoleGroups, name: string)
    requires g.RoleGroups?
    ensures RolesOf(InOrder(g), name) == RolesFor(g, name)
  {
    var groups := InOrder(g);
    var three := [] + [groups[0]] + [groups[1]] + [groups[2]];
    RolesOfThree([], groups[0], groups[1], groups[2], name);
    RolesOfThree(three, groups[3], groups[4], groups[5], name);
    assert three + [groups[3]] + [groups[4]] + [groups[5]] == groups;
    NoRoles(name);
    assert [] + Part("master", g.master, name) == Part("master", g.master, name);
  }

  lemma NoRoles(name: string)
    ensures RolesOf([], name) == []
  {
  }

  /** The host as the groups want it, said role by role: untouched if no group lists its name;
      otherwise its roles are those of the groups that do, in the order master, worker, etcd,
      load balancer, storage, registry, and its table holds exactly these. */
  ghost predicate Indexed(g: RoleGroups, before: HostSpec, after: HostSpec)
    requires g.RoleGroups?
  {
    var name, roles := before.name, after.roles;
    && after.name == name
    && if name !in g.master + g.worker + g.etcd + g.loadBalancer + g.storage + g.registry then after == before else
       && ("master" in roles <==> name in g.master)
       && ("worker" in roles <==> name in g.worker)
       && ("etcd" in roles <==> name in g.etcd)
       && ("loadbalancer" in roles <==> name in g.loadBalancer)
       && ("storage" in roles <==> name in g.storage)
       && ("registry" in roles <==> name in g.registry)
       && roles == RolesFor(g, name)
       && (forall role :: role in after.roleTable <==> role in roles)
       && (forall role :: role in after.roleTable ==> after.roleTable[role])
  }

  /** A role is in the list exactly through the group that gives it. */
  lemma RoleInParts(g: RoleGroups, name: string, role: string)
    requires g.RoleGroups?
    ensures role in RolesFor(g, name) <==>
            || (role == "master" && name in g.master) || (role == "worker" && name in g.worker)
            || (role == "etcd" && name in g.etcd) || (role == "loadbalancer" && name in g.loadBalancer)
            || (role == "storage" && name in g.storage) || (role == "registry" && name in g.registry)
  {
  }

  lemma SixRolesDiffer()
    ensures "master" != "worker" && "master" != "registry" && "storage" != "registry"
  {
    assert "master"[0] == 'm' && "worker"[0] == 'w';
    assert |"registry"| == 8 && |"storage"| == 7 && |"master"| == 6;
  }

  /** Membership in the list of roles, role by role. */
  lemma RoleInList(g: RoleGroups, name: string)
    requires g.RoleGroups?
    ensures "master" in RolesFor(g, name) <==> name in g.master
    ensures "worker" in RolesFor(g, name) <==> name in g.worker
    ensures "etcd" in RolesFor(g, name) <==> name in g.etcd
    ensures "loadbalancer" in RolesFor(g, name) <==> name in g.loadBalancer
    ensures "storage" in RolesFor(g, name) <==> name in g.storage
    ensures "registry" in RolesFor(g, name) <==> name in g.registry
    ensures RolesFor(g, name) == [] <==>
            name !in g.master + g.worker + g.etcd + g.loadBalancer + g.storage + g.registry
  {
    SixRolesDiffer();
    assert |"worker"| == 6 && |"etcd"| == 4 && |"loadbalancer"| == 12;
    RoleInParts(g, name, "master");
    RoleInParts(g, name, "worker");
    RoleInParts(g, name, "etcd");
    RoleInParts(g, name, "loadbalancer");
    RoleInParts(g, name, "storage");
    RoleInParts(g, name, "registry");
    RolesEmptyIff(g, name);
  }

  lemma RolesEmptyIff(g: RoleGroups, name: string)
    requires g.RoleGroups?
    ensures RolesFor(g, name) == [] <==>
            name !in g.master + g.worker + g.etcd + g.loadBalancer + g.storage + g.registry
  {
    assert |RolesFor(g, name)| == |Part("master", g.master, name)| + |Part("worker", g.worker, name)|
      + |Part("etcd", g.etcd, name)| + |Part("loadbalancer", g.loadBalancer, name)|
      + |Part("storage", g.storage, name)| + |Part("registry", g.registry, name)|;
  }

  lemma IndexedIsApplied(g: RoleGroups, before: HostSpec, after: HostSpec)
    requires g.RoleGroups? && Applied(InOrder(g), before, after)
    ensures Indexed(g, before, after)
  {
    var groups, name := InOrder(g), before.name;
    OrderIsProper(g);
    RolesAgree(groups, name);
    RolesInOrder(g, name);
    RoleInList(g, name);
    var roles := RolesOf(groups, name);
    if roles == [] {
      assert forall role :: Lists(groups, role, name) ==> role in roles;
    } else {
      SomeoneLists(groups, name, roles);
      AgreementIsUnique(groups, name, after.roles, roles, 0);
    }
  }

  lemma SomeoneLists(groups: seq<Group>, name: string, roles: seq<string>)
    requires AgreesWithGroups(groups, name, roles) && roles != []
    ensures exists role :: Lists(groups, role, name)
  {
    assert roles[0] in roles;
    assert Lists(groups, roles[0], name);
  }

  method IndexHosts(groups: seq<Group>, hosts: array<HostSpec>)
    requires ProperRoles(groups)
    modifies hosts
    ensures AllApplied(groups, old(hosts[..]), hosts[..])
  {
    var table := RoleMap(groups);
    ghost var before := hosts[..];
    for i := 0 to hosts.Length
      invariant AllApplied(groups, before[..i], hosts[..i])
      invariant forall k :: i <= k < hosts.Length ==> hosts[k] == before[k]
    {
      ghost var done := hosts[..i];
      IndexAt(table, hosts, i, groups);
      assert hosts[..i] == done;
      AppliedMore(groups, before[..i], done, before[i], hosts[i]);
      assert before[..i + 1] == before[..i] + [before[i]] && hosts[..i + 1] == done + [hosts[i]];
    }
    assert before[..hosts.Length] == before && hosts[..hosts.Length] == hosts[..];
  }

  lemma AppliedMore(groups: seq<Group>, before: seq<HostSpec>, after: seq<HostSpec>, host: HostSpec,
                    indexed: HostSpec)
    requires AllApplied(groups, before, after) && Applied(groups, host, indexed)
    ensures AllApplied(groups, before + [host], after + [indexed])
  {
  }

  /** Every host in the slice ends up indexed by the groups; without groups nothing changes. */
  method ApplyRoleGroupsToHosts(g: RoleGroups, hosts: array<HostSpec>)
    modifies hosts
    ensures g.RoleGroups? ==> AllIndexed(g, old(hosts[..]), hosts[..])
    ensures g.RoleGroups? ==> AllApplied(InOrder(g), old(hosts[..]), hosts[..])
    ensures g.Absent? ==> hosts[..] == old(hosts[..])
  {
    if g.Absent? || hosts.Length == 0 {
      return;
    }
    OrderIsProper(g);
    ghost var before := hosts[..];
    IndexHosts(InOrder(g), hosts);
    AppliedAreIndexed(g, before, hosts[..]);
  }

  ghost predicate AllIndexed(g: RoleGroups, before: seq<HostSpec>, after: seq<HostSpec>)
    requires g.RoleGroups?
  {
    && |after| == |before|
    && forall i :: 0 <= i < |before| ==> Indexed(g, before[i], after[i])
  }

  lemma AppliedAreIndexed(g: RoleGroups, before: seq<HostSpec>, after: seq<HostSpec>)
    requires g.RoleGroups? && AllApplied(InOrder(g), before, after)
    ensures AllIndexed(g, before, after)
  {
    forall i | 0 <= i < |before| ensures Indexed(g, before[i], after[i]) {
      IndexedIsApplied(g, before[i], after[i]);
    }
  }

  // Validation

  ghost predicate Named(hosts: seq<HostSpec>, name: string) {
    exists i :: 0 <= i < |hosts| && hosts[i].name == name
  }

  ghost predicate Mentioned(groups: seq<Group>, name: string) {
    exists i :: 0 <= i < |groups| && name in groups[i].members
  }

  /** Every name in the groups is the name of a host. */
  ghost predicate AllNamed(groups: seq<Group>, hosts: seq<HostSpec>) {
    forall name :: Mentioned(groups, name) ==> Named(hosts, name)
  }

  method HostNames(hosts: seq<HostSpec>) returns (names: set<string>)
    ensures forall name :: name in names <==> Named(hosts, name)
  {
    names := {};
    for i := 0 to |hosts|
      invariant forall name :: name in names <==> exists k :: 0 <= k < i && hosts[k].name == name
    {
      names := names + {hosts[i].name};
    }
  }

  method AllMembers(groups: seq<Group>) returns (all: seq<string>)
    ensures forall name :: name in all <==> Mentioned(groups, name)
  {
    all := [];
    for i := 0 to |groups|
      invariant forall name :: name in all <==> exists k :: 0 <= k < i && name in groups[k].members
    {
      all := all + groups[i].members;
    }
  }

  lemma MentionedInOrder(g: RoleGroups)
    requires g.RoleGroups?
    ensures forall name :: Mentioned(InOrder(g), name) <==>
              name in g.master + g.worker + g.etcd + g.loadBalancer + g.storage + g.registry
  {
    var groups := InOrder(g);
    assert |groups| == 6;
    assert groups[0].members == g.master && groups[1].members == g.worker && groups[2].members == g.etcd;
    assert groups[3].members == g.loadBalancer && groups[4].members == g.storage;
    assert groups[5].members == g.registry;
  }

  /** Passes exactly when every group member is a host; otherwise names a member that is not. */
  method ValidateRoleGroupHosts(g: RoleGroups, hosts: seq<HostSpec>) returns (undefined: Option<string>)
    requires g.RoleGroups?
    ensures undefined.None? <==> AllNamed(InOrder(g), hosts)
    ensures undefined.None? <==>
              forall name :: name in g.master + g.worker + g.etcd + g.loadBalancer + g.storage + g.registry ==>
                exists i :: 0 <= i < |hosts| && hosts[i].name == name
    ensures undefined.Some? ==>
              && undefined.value in g.master + g.worker + g.etcd + g.loadBalancer + g.storage + g.registry
              && forall i :: 0 <= i < |hosts| ==> hosts[i].name != undefined.value
  {
    var validHosts := HostNames(hosts);
    var all := AllMembers(InOrder(g));
    MentionedInOrder(g);
    for i := 0 to |all|
      invariant forall k :: 0 <= k < i ==> Named(hosts, all[k])
    {
      if all[i] !in validHosts {
        assert all[i] in all;
        return Some(all[i]);
      }
    }
    undefined := None;
  }

  /** With the validation passed, every membership written in the groups shows up on some host; and a host that
      any group lists has no other roles. */
  lemma MembershipsRealised(groups: seq<Group>, before: seq<HostSpec>, after: seq<HostSpec>, role: string,
                            name: string)
    requires AllNamed(groups, before) && AllApplied(groups, before, after)
    requires Mentioned(groups, name)
    ensures Lists(groups, role, name) <==>
            exists i :: 0 <= i < |after| && after[i].name == name && role in after[i].roles
  {
    var g :| 0 <= g < |groups| && name in groups[g].members;
    assert Lists(groups, groups[g].role, name);
    if Lists(groups, role, name) {
      assert Named(before, name);
      var i :| 0 <= i < |before| && before[i].name == name;
      assert Applied(groups, before[i], after[i]);
      assert after[i].name == name && role in after[i].roles;
    }
    if i :| 0 <= i < |after| && after[i].name == name && role in after[i].roles {
      assert Applied(groups, before[i], after[i]);
    }
  }
}
