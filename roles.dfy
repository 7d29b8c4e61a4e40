/**
 * The role bookkeeping of _sync_roles_helper in main.py: for one member,
 * which level roles to take away and whether the role of the member's
 * level is already held, and the roles the member ends up with.
 */
module Roles {

  type RoleId = int

  /** The ids of every level role: the values of the LEVEL_ROLES mapping. */
  function LevelRoleIds(levelRoles: map<int, RoleId>): (ids: set<RoleId>)
    ensures forall l :: l in levelRoles ==> levelRoles[l] in ids
    ensures forall r :: r in ids ==> exists l :: l in levelRoles && levelRoles[l] == r
  {
    set l | l in levelRoles :: levelRoles[l]
  }

  /** The roles of `roles`, in order, that are level roles other than `target`. */
  function OtherLevelRoles(roles: seq<RoleId>, levelIds: set<RoleId>, target: RoleId): seq<RoleId>
    decreases |roles|
  {
    if roles == [] then []
    else
      var last := roles[|roles| - 1];
      OtherLevelRoles(roles[..|roles| - 1], levelIds, target)
        + (if last in levelIds && last != target then [last] else [])
  }

  /** OtherLevelRoles keeps exactly the level roles other than the target, and no more entries than it was given. */
  lemma {:induction false} OtherLevelRolesMembers(roles: seq<RoleId>, levelIds: set<RoleId>, target: RoleId)
    ensures forall r :: r in OtherLevelRoles(roles, levelIds, target) <==> r in roles && r in levelIds && r != target
    ensures |OtherLevelRoles(roles, levelIds, target)| <= |roles|
    decreases |roles|
  {
    if roles != [] {
      var front := roles[..|roles| - 1];
      OtherLevelRolesMembers(front, levelIds, target);
      assert roles == front + [roles[|roles| - 1]];
    }
  }

  /**
   * The scan over a member's roles: every level role other than the target
   * is collected for removal, in the order the member holds them, and the
   * result says whether the target role is among the member's roles.
   */
  method PartitionLevelRoles(roles: seq<RoleId>, levelIds: set<RoleId>, target: RoleId)
    returns (toRemove: seq<RoleId>, hasTarget: bool)
    ensures hasTarget <==> target in levelIds && target in roles
    ensures toRemove == OtherLevelRoles(roles, levelIds, target)
    ensures forall r :: r in toRemove <==> r in roles && r in levelIds && r != target
    ensures |toRemove| <= |roles|
  {
    toRemove, hasTarget := [], false;
    for i := 0 to |roles|
      invariant hasTarget <==> target in levelIds && target in roles[..i]
      invariant toRemove == OtherLevelRoles(roles[..i], levelIds, target)
    {
      assert roles[..i + 1] == roles[..i] + [roles[i]];
      assert roles[..i + 1][..i] == roles[..i];
      if roles[i] in levelIds {
        if roles[i] == target {
          hasTarget := true;
        } else {
          toRemove := toRemove + [roles[i]];
        }
      }
    }
    assert roles[..|roles|] == roles;
    OtherLevelRolesMembers(roles, levelIds, target);
  }

  /**
   * The roles of one member after the sync: the target role is added when it
   * is missing and the guild has it, and the collected roles are removed.
   */
  function RolesAfterSync(roles: seq<RoleId>, toRemove: seq<RoleId>, hasTarget: bool,
                          target: RoleId, guildRoles: set<RoleId>): set<RoleId>
  {
    var held := set r | r in roles;
    var added := if !hasTarget && target in guildRoles then {target} else {};
    (held + added) - (set r | r in toRemove)
  }

  /**
   * What the sync promises for one member whose level is `level`: a member
   * whose level has no role is left alone; otherwise the member keeps every
   * role that is not a level role and, among the level roles, holds exactly
   * the target when it was held already or exists in the guild, and none
   * when it does not.
   */
  ghost predicate Synced(roles: seq<RoleId>, after: set<RoleId>, levelRoles: map<int, RoleId>,
                         level: int, guildRoles: set<RoleId>)
  {
    && (level !in levelRoles ==> after == set r | r in roles)
    && after - LevelRoleIds(levelRoles) == (set r | r in roles) - LevelRoleIds(levelRoles)
    && (level in levelRoles && (levelRoles[level] in roles || levelRoles[level] in guildRoles) ==>
          after * LevelRoleIds(levelRoles) == {levelRoles[level]})
    && (level in levelRoles && levelRoles[level] !in roles && levelRoles[level] !in guildRoles ==>
          after * LevelRoleIds(levelRoles) == {})
  }

  /** The sync of one member whose level is `level`. */
  method SyncMember(roles: seq<RoleId>, levelRoles: map<int, RoleId>, level: int,
                    guildRoles: set<RoleId>) returns (after: set<RoleId>)
    ensures Synced(roles, after, levelRoles, level, guildRoles)
  {
    if level !in levelRoles {
      return set r | r in roles;
    }
    var target := levelRoles[level];
    var levelIds := LevelRoleIds(levelRoles);
    assert target in levelIds;
    var toRemove, hasTarget := PartitionLevelRoles(roles, levelIds, target);
    after := RolesAfterSync(roles, toRemove, hasTarget, target, guildRoles);
    assert forall r :: r in after && r !in levelIds <==> r in roles && r !in levelIds;
  }

  /** No two levels share a role id. */
  ghost predicate DistinctRoles(levelRoles: map<int, RoleId>)
  {
    forall l1, l2 :: l1 in levelRoles && l2 in levelRoles && l1 != l2 ==> levelRoles[l1] != levelRoles[l2]
  }

  /**
   * The role update of monthly_reset_loop for the month's winner, whose new
   * level is `newLevel`: when that level has a role, every held role that is
   * mapped to by another level is removed, and then the new level's role is
   * added when the guild has it. With no role for the level nothing changes.
   */
  function WinnerRoles(roles: seq<RoleId>, levelRoles: map<int, RoleId>, newLevel: int,
                       guildRoles: set<RoleId>): (after: set<RoleId>)
    ensures newLevel !in levelRoles ==> after == set r | r in roles
    ensures newLevel in levelRoles ==> forall r ::
      r in after <==>
        (r in roles && forall l :: l in levelRoles && l != newLevel ==> levelRoles[l] != r) ||
        (r == levelRoles[newLevel] && r in guildRoles)
  {
    if newLevel !in levelRoles then set r | r in roles
    else
      var others := set l | l in levelRoles && l != newLevel :: levelRoles[l];
      var kept := set r | r in roles && r !in others;
      kept + (if levelRoles[newLevel] in guildRoles then {levelRoles[newLevel]} else {})
  }

  /**
   * When no two levels share a role, the winner's roles after the promotion
   * are what the role sync would give for the new level.
   */
  lemma WinnerRolesSynced(roles: seq<RoleId>, levelRoles: map<int, RoleId>, newLevel: int,
                          guildRoles: set<RoleId>)
    requires DistinctRoles(levelRoles)
    ensures Synced(roles, WinnerRoles(roles, levelRoles, newLevel, guildRoles), levelRoles, newLevel, guildRoles)
  {
    var after := WinnerRoles(roles, levelRoles, newLevel, guildRoles);
    var ids := LevelRoleIds(levelRoles);
    if newLevel in levelRoles {
      var target := levelRoles[newLevel];
      forall r | r in ids && r != target ensures r !in after {
        var l :| l in levelRoles && levelRoles[l] == r;
      }
      assert target in ids;
      if target in roles {
        forall l | l in levelRoles && l != newLevel ensures levelRoles[l] != target {
        }
        assert target in after;
      }
      forall r | r !in ids ensures r in after <==> r in roles {
        if r in roles {
          forall l | l in levelRoles && l != newLevel ensures levelRoles[l] != r {
            assert levelRoles[l] in ids;
          }
        }
      }
    }
  }
}
