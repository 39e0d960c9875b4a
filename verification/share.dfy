/** `WhatsAppManager`: share statistics and the values it derives for share
    messages. */
module Share {
  import opened Basics
  import opened Json
  import Coalition
  import Auth

  /** The stored `whatsapp_stats` object. */
  datatype ShareStats = ShareStats(shares: int, groups: int, reach: int)

  /** The stats used when none are stored. */
  const InitialStats: ShareStats := ShareStats(0, 0, 0)

  /** `Math.floor(Math.random() * 20) + 10` for a draw `random` in [0, 1). */
  function ReachIncrement(random: real): (k: int)
    requires 0.0 <= random < 1.0
    ensures 10 <= k <= 29
    ensures (k - 10) as real <= random * 20.0 < (k - 9) as real
  {
    (random * 20.0).Floor + 10
  }

  /** Every estimate from 10 to 29 is produced by some draw. */
  lemma ReachIncrementOnto(k: int)
    requires 10 <= k <= 29
    ensures ReachIncrement((k - 10) as real / 20.0) == k
  {
    var x := (k - 10) as real / 20.0;
    assert x * 20.0 == (k - 10) as real;
  }

  /** `trackShare(type)`: the stored stats, or the initial ones, with one
      more share and an estimated reach increment. `accepted` is false when
      the browser refuses the write; the error is caught and the stored stats
      stay as they were. */
  function TrackShare(stored: Option<ShareStats>, random: real, accepted: bool): (r: Option<ShareStats>)
    requires 0.0 <= random < 1.0
    ensures !accepted ==> r == stored
    ensures accepted ==>
      var before := stored.GetOr(InitialStats);
      && r.Some?
      && r.value.shares == before.shares + 1
      && r.value.reach == before.reach + ReachIncrement(random)
      && before.reach + 10 <= r.value.reach <= before.reach + 29
      && r.value.groups == before.groups
  {
    var stats := stored.GetOr(InitialStats);
    var updated := ShareStats(stats.shares + 1, stats.groups, stats.reach + ReachIncrement(random));
    if accepted then Some(updated) else stored
  }

  /** The first share ever recorded starts from zero: one share, no groups,
      and a reach equal to the drawn increment, between 10 and 29. */
  lemma FirstShare(random: real)
    requires 0.0 <= random < 1.0
    ensures var r := TrackShare(None, random, true);
      && r.Some? && r.value.shares == 1 && r.value.groups == 0
      && r.value.reach == ReachIncrement(random) && 10 <= r.value.reach <= 29
  {
  }

  /** The figures of the coalition-statistics message. */
  datatype CoalitionCounts = CoalitionCounts(memberCount: nat, statesCount: nat, educators: nat, students: nat)

  /** `shareCoalitionStats()`: the member and state counts, falling back to
      12 and 8 when zero, and the educators and students derived from the
      member count. */
  function ShareCoalitionCounts(members: seq<Record>): (c: CoalitionCounts)
    ensures |members| == 0 ==> c.memberCount == 12 && c.statesCount == 8
    ensures |members| > 0 ==> c.memberCount == |members|
    ensures |members| > 0 ==> c.statesCount == Coalition.UpdateStats(members, []).statesCount
    ensures c.statesCount <= c.memberCount
    ensures c.educators == 3 * c.memberCount && c.students == 150 * c.memberCount
  {
    Coalition.DistinctStatesBound(members);
    var memberCount := if |members| == 0 then 12 else |members|;
    var states := |Coalition.DistinctStates(members)|;
    var statesCount := if states == 0 then 8 else states;
    CoalitionCounts(memberCount, statesCount, memberCount * 3, memberCount * 150)
  }

  /** The role `createRoleGroup` uses: the user's role, or `educator` with
      nobody logged in. */
  function RoleOf(session: Option<Auth.Profile>): string {
    if session.Some? then session.value.role else "educator"
  }

  /** The `roleNames` table. */
  const RoleNames: map<string, string> := map[
    "faculty" := "Faculty & Teachers",
    "principal" := "Principals & Administrators",
    "student" := "Students",
    "researcher" := "Researchers"]

  /** `roleNames[userRole] || 'Educators'`. */
  function RoleGroupName(session: Option<Auth.Profile>): (name: string)
    ensures name in RoleNames.Values + {"Educators"}
    ensures RoleOf(session) in RoleNames ==> name == RoleNames[RoleOf(session)]
    ensures RoleOf(session) !in RoleNames ==> name == "Educators"
  {
    var role := RoleOf(session);
    if role in RoleNames then RoleNames[role] else "Educators"
  }

  /** Guests and admins both land in the general educators' group; the four
      named roles each get a group of their own. */
  lemma RoleGroups(admin: Auth.Profile)
    requires admin.role == "admin"
    ensures RoleGroupName(None) == "Educators"
    ensures RoleGroupName(Some(admin)) == "Educators"
    ensures forall r1, r2 :: r1 in RoleNames && r2 in RoleNames && r1 != r2 ==> RoleNames[r1] != RoleNames[r2]
    ensures "Educators" !in RoleNames.Values
  {
  }

  /** The invitation's personal note: the inviter's name and institution,
      or nothing for a guest. */
  function PersonalNote(session: Option<Auth.Profile>): string
  {
    if session.Some? then "\n\n*Invitation from " + session.value.name + "*\n" + session.value.institution else ""
  }

  /** `createInstitutionGroup`'s institution name. */
  function InstitutionName(session: Option<Auth.Profile>): string
  {
    if session.Some? then session.value.institution else "Your Institution"
  }

  /** `createStateGroup`'s state name. */
  function StateName(session: Option<Auth.Profile>): string
  {
    if session.Some? then session.value.state else "Your State"
  }

  /** After logout every share message falls back to its guest text. */
  lemma GuestFallbacks(dir: Auth.Directory)
    ensures var s := Auth.Logout(dir).session;
      && PersonalNote(s) == ""
      && InstitutionName(s) == "Your Institution"
      && StateName(s) == "Your State"
      && RoleGroupName(s) == "Educators"
  {
  }

  /** After a successful login the share messages name the user: the
      institution and state groups use the account's institution and state,
      the invitation carries the account's name and institution, and the role
      group follows the account's role. */
  lemma LoginNamesUser(dir: Auth.Directory, email: string, password: string)
    requires Auth.Login(dir, email, password).outcome.Ok?
    ensures var s := Auth.Login(dir, email, password).dir.session;
      var account := Auth.Login(dir, email, password).outcome.value;
      && InstitutionName(s) == account.institution
      && StateName(s) == account.state
      && PersonalNote(s) == "\n\n*Invitation from " + account.name + "*\n" + account.institution
      && RoleOf(s) == account.role
  {
  }
}
