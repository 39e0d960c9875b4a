/** `CoalitionManager`: member institutions and campaigns, and the three
    counts its statistics panel shows. */
module Coalition {
  import opened Basics
  import opened Json
  import Text

  /** `addMember(memberData)`'s record: generated id (overridable), the
      member's fields, then a join date and `verified: false` that the
      caller cannot override. */
  function NewMember(data: Record, now: int, isoNow: string): (m: Record)
    ensures m.Keys == data.Keys + {"id", "joinDate", "verified"}
    ensures m["id"] == (if "id" in data then data["id"] else JNum(now))
    ensures m["joinDate"] == JStr(Text.BeforeT(isoNow))
    ensures m["verified"] == JBool(false)
    ensures forall k :: k in data && k !in {"id", "joinDate", "verified"} ==> m[k] == data[k]
  {
    Spread(Spread(map["id" := JNum(now)], data),
           map["joinDate" := JStr(Text.BeforeT(isoNow)), "verified" := JBool(false)])
  }

  /** `addMember`: appended at the end (`push`). */
  function AddMember(members: seq<Record>, data: Record, now: int, isoNow: string): (r: seq<Record>)
    ensures |r| == |members| + 1 && r[..|members|] == members
    ensures r[|members|] == NewMember(data, now, isoNow)
  {
    members + [NewMember(data, now, isoNow)]
  }

  /** `createCampaign(campaignData)`'s record: one supporter (the creator)
      and status `active`, whatever the caller passed. */
  function NewCampaign(data: Record, now: int, isoNow: string): (c: Record)
    ensures c.Keys == data.Keys + {"id", "startDate", "supporters", "status"}
    ensures c["id"] == (if "id" in data then data["id"] else JNum(now))
    ensures c["startDate"] == JStr(Text.BeforeT(isoNow))
    ensures c["supporters"] == JNum(1) && c["status"] == JStr("active")
    ensures forall k :: k in data && k !in {"id", "startDate", "supporters", "status"} ==> c[k] == data[k]
  {
    Spread(Spread(map["id" := JNum(now)], data),
           map["startDate" := JStr(Text.BeforeT(isoNow)),
               "supporters" := JNum(1),
               "status" := JStr("active")])
  }

  /** `createCampaign`: appended at the end. */
  function CreateCampaign(campaigns: seq<Record>, data: Record, now: int, isoNow: string): (r: seq<Record>)
    ensures |r| == |campaigns| + 1 && r[..|campaigns|] == campaigns
    ensures r[|campaigns|] == NewCampaign(data, now, isoNow)
  {
    campaigns + [NewCampaign(data, now, isoNow)]
  }

  /** `m.state`, `undefined` included: a member without a state still adds
      `undefined` to the set of states. */
  function StateOf(m: Record): Option<Json> {
    Get(m, "state")
  }

  /** `new Set(members.map(m => m.state))`. */
  function DistinctStates(members: seq<Record>): set<Option<Json>> {
    if |members| == 0 then {}
    else DistinctStates(members[..|members| - 1]) + {StateOf(members[|members| - 1])}
  }

  lemma {:induction false} DistinctStatesMembers(members: seq<Record>)
    ensures forall s :: s in DistinctStates(members) <==> exists i :: 0 <= i < |members| && StateOf(members[i]) == s
  {
    if |members| > 0 {
      var init := members[..|members| - 1];
      DistinctStatesMembers(init);
      forall s | s in DistinctStates(members)
        ensures exists i :: 0 <= i < |members| && StateOf(members[i]) == s
      {
        if s in DistinctStates(init) {
          var i :| 0 <= i < |init| && StateOf(init[i]) == s;
          assert members[i] == init[i];
        } else {
          assert StateOf(members[|members| - 1]) == s;
        }
      }
      forall i | 0 <= i < |members|
        ensures StateOf(members[i]) in DistinctStates(members)
      {
        if i < |members| - 1 {
          assert members[i] == init[i];
        }
      }
    }
  }

  /** There are never more distinct states than members, and none only when
      there are no members. */
  lemma {:induction false} DistinctStatesBound(members: seq<Record>)
    ensures |DistinctStates(members)| <= |members|
    ensures |DistinctStates(members)| == 0 <==> |members| == 0
  {
    if |members| > 0 {
      DistinctStatesBound(members[..|members| - 1]);
    }
  }

  /** `c.status === 'active'`. */
  predicate IsActive(c: Record) {
    Get(c, "status") == Some(JStr("active"))
  }

  /** The positions of the active campaigns. */
  ghost function ActiveIndices(campaigns: seq<Record>): set<int> {
    set i | 0 <= i < |campaigns| && IsActive(campaigns[i])
  }

  /** `campaigns.filter(c => c.status === 'active').length`: the number of
      positions holding an active campaign. */
  function ActiveCount(campaigns: seq<Record>): (n: nat)
    ensures n == |ActiveIndices(campaigns)|
    ensures n <= |campaigns|
  {
    if |campaigns| == 0 then
      assert ActiveIndices(campaigns) == {};
      0
    else
      var last := |campaigns| - 1;
      var init := campaigns[..last];
      assert forall i :: 0 <= i < last ==> init[i] == campaigns[i];
      assert ActiveIndices(campaigns)
          == ActiveIndices(init) + (if IsActive(campaigns[last]) then {last} else {});
      assert last !in ActiveIndices(init);
      ActiveCount(init) + (if IsActive(campaigns[last]) then 1 else 0)
  }

  /** The counts `updateStats` writes to the page. */
  datatype Stats = Stats(memberCount: nat, statesCount: nat, activeCampaigns: nat)

  function UpdateStats(members: seq<Record>, campaigns: seq<Record>): (s: Stats)
    ensures s.memberCount == |members|
    ensures s.statesCount == |DistinctStates(members)|
    ensures s.statesCount <= s.memberCount
    ensures s.statesCount == 0 <==> |members| == 0
    ensures s.activeCampaigns == |ActiveIndices(campaigns)|
    ensures s.activeCampaigns <= |campaigns|
  {
    DistinctStatesBound(members);
    Stats(|members|, |DistinctStates(members)|, ActiveCount(campaigns))
  }

  /** Adding a member adds one to the member count and one to the state
      count exactly when the new member's state is not represented yet. */
  lemma AddMemberStats(members: seq<Record>, campaigns: seq<Record>, data: Record, now: int, isoNow: string)
    ensures var before := UpdateStats(members, campaigns);
      var after := UpdateStats(AddMember(members, data, now, isoNow), campaigns);
      && after.memberCount == before.memberCount + 1
      && after.activeCampaigns == before.activeCampaigns
      && (Get(data, "state") in DistinctStates(members) ==> after.statesCount == before.statesCount)
      && (Get(data, "state") !in DistinctStates(members) ==> after.statesCount == before.statesCount + 1)
  {
    var r := AddMember(members, data, now, isoNow);
    assert r[..|r| - 1] == members;
    assert StateOf(r[|r| - 1]) == Get(data, "state");
    assert DistinctStates(r) == DistinctStates(members) + {Get(data, "state")};
    if Get(data, "state") in DistinctStates(members) {
      assert DistinctStates(r) == DistinctStates(members);
    }
  }

  /** A new campaign is active, so the active count grows by exactly one. */
  lemma CreateCampaignStats(members: seq<Record>, campaigns: seq<Record>, data: Record, now: int, isoNow: string)
    ensures var before := UpdateStats(members, campaigns);
      var after := UpdateStats(members, CreateCampaign(campaigns, data, now, isoNow));
      && after.activeCampaigns == before.activeCampaigns + 1
      && after.memberCount == before.memberCount
      && after.statesCount == before.statesCount
  {
    var r := CreateCampaign(campaigns, data, now, isoNow);
    assert r[..|r| - 1] == campaigns;
  }
}
