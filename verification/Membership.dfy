/**
 Who is in which group: the server asks for the members of each group the configuration names and
 needs the groups of each user.
 */
module Membership {
  import opened Wrappers
  import opened Sequences

  // The groups each user is in, from the members the backend lists for each group.
  ghost function GroupsOf(groups: set<string>, fetchGroup: string -> Option<seq<string>>, user: string): set<string> {
    set g | g in groups && fetchGroup(g).Some? && user in fetchGroup(g).value
  }

  type Groups = map<string, seq<string>>

  function GroupsIn(userGroups: Groups, user: string): seq<string> {
    if user in userGroups then userGroups[user] else []
  }

  // `joined` are the groups `before` and, for the users listed, one more.
  ghost predicate Join(before: Groups, users: seq<string>, group: string, after: Groups) {
    && after.Keys == before.Keys + Elements(users)
    && forall u :: Elements(GroupsIn(after, u)) == Elements(GroupsIn(before, u)) + JoinedBy(u, users, group)
  }

  function JoinedBy(user: string, users: seq<string>, group: string): set<string> {
    if user in users then {group} else {}
  }

  lemma JoinNext(before: Groups, users: seq<string>, group: string, now: Groups, user: string)
    requires Join(before, users, group, now)
    ensures Join(before, users + [user], group, now[user := GroupsIn(now, user) + [group]])
  {
    hide Elements, JoinedBy;
    var after := now[user := GroupsIn(now, user) + [group]];
    ElementsAppend(users, user);
    ElementsAppend(GroupsIn(now, user), group);
    forall u
      ensures Elements(GroupsIn(after, u)) == Elements(GroupsIn(before, u)) + JoinedBy(u, users + [user], group)
    {
      JoinedNext(u, users, group, user);
    }
  }

  lemma JoinedNext(u: string, users: seq<string>, group: string, user: string)
    ensures JoinedBy(u, users + [user], group) == JoinedBy(u, users, group) + if u == user then {group} else {}
  {
  }

  method AddMembers(userGroups: Groups, group: string, users: seq<string>) returns (next: Groups)
    ensures Join(userGroups, users, group, next)
  {
    hide Join;
    next := userGroups;
    JoinNone(userGroups, group);
    for i := 0 to |users|
      invariant Join(userGroups, users[..i], group, next)
    {
      JoinNext(userGroups, users[..i], group, next, users[i]);
      assert users[..i + 1] == users[..i] + [users[i]];
      next := next[users[i] := GroupsIn(next, users[i]) + [group]];
    }
    assert users[..|users|] == users;
  }

  lemma JoinNone(userGroups: Groups, group: string)
    ensures Join(userGroups, [], group, userGroups)
  {
  }

  // The users in any of these groups, each with the groups it is in.
  ghost predicate Inverts(userGroups: Groups, groups: set<string>, fetchGroup: string -> Option<seq<string>>) {
    && (forall u :: u in userGroups <==> GroupsOf(groups, fetchGroup, u) != {})
    && forall u :: Elements(GroupsIn(userGroups, u)) == GroupsOf(groups, fetchGroup, u)
  }

  lemma InvertsNext(
    userGroups: Groups, groups: set<string>, fetchGroup: string -> Option<seq<string>>, group: string, next: Groups)
    requires Inverts(userGroups, groups, fetchGroup) && fetchGroup(group).Some?
    requires Join(userGroups, fetchGroup(group).value, group, next)
    ensures Inverts(next, groups + {group}, fetchGroup)
  {
    hide Elements, GroupsIn, GroupsOf, JoinedBy;
    forall u
      ensures u in next <==> GroupsOf(groups + {group}, fetchGroup, u) != {}
      ensures Elements(GroupsIn(next, u)) == GroupsOf(groups + {group}, fetchGroup, u)
    {
      GroupsOfNext(groups, fetchGroup, group, u);
    }
  }

  lemma GroupsOfNext(groups: set<string>, fetchGroup: string -> Option<seq<string>>, group: string, u: string)
    requires fetchGroup(group).Some?
    ensures GroupsOf(groups + {group}, fetchGroup, u) ==
      GroupsOf(groups, fetchGroup, u) + JoinedBy(u, fetchGroup(group).value, group)
    ensures u in Elements(fetchGroup(group).value) <==> JoinedBy(u, fetchGroup(group).value, group) != {}
  {
    if u in fetchGroup(group).value {
      assert group in JoinedBy(u, fetchGroup(group).value, group);
    }
  }

  /** The inversion in buildUserConfigs: from members per group to groups per user. */
  method InvertGroups(groups: set<string>, fetchGroup: string -> Option<seq<string>>, users: set<string>)
    returns (r: Option<Groups>)
    ensures r.None? <==> exists g | g in groups :: fetchGroup(g).None?
    ensures r.Some? ==> forall u :: u in r.value <==> u in users || GroupsOf(groups, fetchGroup, u) != {}
    ensures r.Some? ==> forall u :: Elements(GroupsIn(r.value, u)) == GroupsOf(groups, fetchGroup, u)
    ensures r.Some? ==> forall u, g ::
      g in GroupsIn(r.value, u) <==> g in groups && fetchGroup(g).Some? && u in fetchGroup(g).value
  {
    hide Join, Elements, GroupsOf;
    var userGroups: Groups := map[];
    var rest := groups;
    assert groups - groups == {};
    InvertsNone(fetchGroup);
    while rest != {}
      invariant rest <= groups && forall g | g in groups - rest :: fetchGroup(g).Some?
      invariant Inverts(userGroups, groups - rest, fetchGroup)
    {
      hide Inverts;
      var group :| group in rest;
      var members := fetchGroup(group);
      if members.None? {
        return None;
      }
      var next := AddMembers(userGroups, group, members.value);
      InvertsNext(userGroups, groups - rest, fetchGroup, group, next);
      assert groups - (rest - {group}) == groups - rest + {group};
      userGroups, rest := next, rest - {group};
    }
    assert groups - {} == groups;
    userGroups := AddDeclared(userGroups, users);
    InMeans(userGroups, groups, fetchGroup);
    r := Some(userGroups);
  }

  lemma InMeans(userGroups: Groups, groups: set<string>, fetchGroup: string -> Option<seq<string>>)
    requires forall u :: Elements(GroupsIn(userGroups, u)) == GroupsOf(groups, fetchGroup, u)
    ensures forall u, g ::
      g in GroupsIn(userGroups, u) <==> g in groups && fetchGroup(g).Some? && u in fetchGroup(g).value
  {
    hide GroupsIn;
    forall u, g
      ensures g in GroupsIn(userGroups, u) <==> g in groups && fetchGroup(g).Some? && u in fetchGroup(g).value
    {
      assert g in GroupsIn(userGroups, u) <==> g in Elements(GroupsIn(userGroups, u));
    }
  }

  lemma InvertsNone(fetchGroup: string -> Option<seq<string>>)
    ensures Inverts(map[], {}, fetchGroup)
  {
  }

  // Users with a section of their own are listed even if they are in no group.
  method AddDeclared(userGroups: Groups, users: set<string>) returns (next: Groups)
    ensures next.Keys == userGroups.Keys + users
    ensures forall u :: GroupsIn(next, u) == GroupsIn(userGroups, u)
  {
    next := userGroups;
    var rest := users;
    while rest != {}
      invariant rest <= users && next.Keys == userGroups.Keys + (users - rest)
      invariant forall u :: GroupsIn(next, u) == GroupsIn(userGroups, u)
    {
      var user :| user in rest;
      rest := rest - {user};
      if user !in next {
        next := next[user := []];
      }
    }
  }
}
